# Minute Cryptic, modelled in Dafny

Minute Cryptic is a daily cryptic-crossword web game. Each day one puzzle is published: a clue with a length marker such as `(5,6)`. Players type the answer into letter boxes, and the server checks it against the stored answer after normalising both strings. Signed-in players submit one answer per puzzle. Admins create, edit and delete puzzles.

This project models the logic at the centre of the game and proves what it promises:

- **Answer matching** (`PuzzleValidator`):
  - normalisation is lower-casing, dropping every character outside `[a-z0-9\s]`, trimming, and collapsing runs of white space;
  - `validateAnswer` compares the normal forms;
  - it is proved equivalent to comparing word lists.
- **The letter-box editor** (`MinuteCrypticGame`):
  - the slot array and its cursor, as a class whose handlers follow pure board functions;
  - the clue-marker parse;
  - the word break;
  - the `handleCheck` guard.
- **The daily-game client** (`DailyGame`): the timer text, the difficulty stars, and `handleSubmit` split at its request.
- **The admin form** (`PuzzleForm`): its defaults, its field updates and `validateForm`.
- **The static puzzle table** (`StaticPuzzles`) and its date lookups.
- **The API routes**, over an in-memory store of rows (`Store`):
  - the daily puzzle (`DailyRoute`);
  - answer checking (`ValidateRoute`);
  - single-shot submission (`SubmitRoute`);
  - the admin puzzle table (`AdminRoute`).
- **The middleware** that guards `/admin` (`Middleware`).

## Modelling conventions

- **Supporting modules.** `JsString` holds the JavaScript string operations the code uses: `trim`, `startsWith`, `includes`, `repeat`, `padStart`, number-to-decimal and `parseInt` on digit strings. `Wrappers` holds `Option`.
- **Instants and days.**
  - An instant is an integer of milliseconds since the Unix epoch.
  - The date part of `toISOString()` is represented by the UTC day number `ms / 86400000`, since one determines the other.
  - Dafny's `/` floors for a positive divisor, as that date does.
- **Sessions and tokens.**
  - A session is `Option<User(id, role)>`.
  - A JWT is the role it carries, if there is a token.
  - "Now", "today" and the ids the database generates are parameters.
- **JSON bodies.** A missing string field of a request body is `""`, which the routes treat like any other falsy value. A missing number is `None`.
- **Database tables.**
  - A Prisma table is a sequence of rows.
  - `findUnique` is a first-match search. It is exact when the key is unique, and the routes' invariants keep keys unique.
  - A Prisma error (an unknown id on update or delete, a clashing id on create) is the handler's 500 branch.
- **State-changing handlers.** Each is a class method, proved equal to a pure outcome function: `SubmitRoute.SolutionTable`, `AdminRoute.PuzzleTable`, `MinuteCrypticGame.LetterBuffer` and `DailyGame.DailyGameView`. The properties are lemmas about those functions.
- **String literals.** Examples on concrete strings take the literal as a parameter (`requires s == "..."`).

## Model

| member | source | states |
|---|---|---|
| PuzzleValidator.Normalize | lib/puzzle-validator.ts:10-15 | the normal form has only `a-z`, `0-9` and single spaces, no space at either end and no two spaces in a row, and is no longer than the input |
| PuzzleValidator.StripDisallowed | lib/puzzle-validator.ts:13 | the kept characters are all in `[a-z0-9\s]`, and none are added |
| PuzzleValidator.CollapseWhitespace | lib/puzzle-validator.ts:15 | collapsing white-space runs keeps the string empty exactly when it was, and keeps whether it starts with white space |
| PuzzleValidator.CollapseIsSingleSpaced | lib/puzzle-validator.ts:15 | after collapsing, every white-space character is a single space and no two are adjacent |
| PuzzleValidator.NormalizeIdempotent | lib/puzzle-validator.ts:10-15 | normalising twice equals normalising once |
| PuzzleValidator.NormalizedIsFixpoint | lib/puzzle-validator.ts:10-15 | a string already in normal form is left unchanged |
| PuzzleValidator.NormalizeJoinsWords | lib/puzzle-validator.ts:10-15 | the normal form is the words of the lower-cased, stripped input joined by single spaces |
| PuzzleValidator.JoinWordsInjective | lib/puzzle-validator.ts:15 | two word lists that join to the same string are the same list |
| PuzzleValidator.ValidateAnswerIffSameWords | lib/puzzle-validator.ts:17 | two answers match exactly when their cleaned word lists are equal |
| PuzzleValidator.ValidateAnswerSymmetric | lib/puzzle-validator.ts:17 | matching is symmetric |
| PuzzleValidator.ValidateAnswerReflexive | lib/puzzle-validator.ts:17 | every answer matches itself |
| PuzzleValidator.NormalizeIgnoresCase | lib/puzzle-validator.ts:12 | lower-casing first does not change the normal form |
| PuzzleValidator.IgnoresDeletedCharacter | lib/puzzle-validator.ts:13 | deleting a character outside the kept class (after lower-casing) does not change the normal form, and leaves no space behind |
| PuzzleValidator.WhitespaceRunsAlike | lib/puzzle-validator.ts:14-15 | any non-empty white-space run between two parts normalises like a single space |
| PuzzleValidator.NormalizeIgnoresTrim | lib/puzzle-validator.ts:14 | trimming an answer first does not change its normal form |
| PuzzleValidator.ExampleSpacingAndPunctuation | lib/puzzle-validator.ts:12-17 | "Olive Garden!" matches "olive   garden" |
| PuzzleValidator.ExampleHyphenAndCase | lib/puzzle-validator.ts:12-17 | "olive-garden" matches "OLIVEGARDEN" |
| PuzzleValidator.ExampleThatDoesNotMatch | lib/puzzle-validator.ts:13-17 | "olivegarden" does not match "olive garden" |
| PuzzleValidator.ExampleAllPunctuation | lib/puzzle-validator.ts:13-15 | "!!!" normalises to the empty string |
| PuzzleValidator.ExampleEmptyAnswers | lib/puzzle-validator.ts:10-17 | `("", "")` and `("!!!", "")` match, and `("", "answer")` does not |
| JsString.TrimEmpty | lib/puzzle-validator.ts:14 | `trim` gives the empty string exactly when the input is all white space |
| JsString.DecimalRoundTrip | components/game/MinuteCrypticGame.tsx:51-52 | `parseInt` of a number's decimal digits gives the number back |
| MinuteCrypticGame.DigitRunIsDigits | components/game/MinuteCrypticGame.tsx:49 | the `\d+` run read at a position is all digits and cannot be extended |
| MinuteCrypticGame.MarkerAt | components/game/MinuteCrypticGame.tsx:49 | a marker is read only where the text has `(` |
| MinuteCrypticGame.FindMarkerIsLeftmost | components/game/MinuteCrypticGame.tsx:49 | the marker found is the one at the leftmost position that has one, and nothing is found when no position has one |
| MinuteCrypticGame.OneWordMarkerRoundTrip | components/game/MinuteCrypticGame.tsx:49-53 | the text `(n)` reads back as lengths `(n, 0)` |
| MinuteCrypticGame.TwoWordMarkerRoundTrip | components/game/MinuteCrypticGame.tsx:49-53 | the text `(n,` + white space + `m)` reads back as lengths `(n, m)` |
| MinuteCrypticGame.FindsTwoWordMarker | components/game/MinuteCrypticGame.tsx:49-53 | a clue whose text has no `(` before a two-word marker yields that marker's lengths |
| MinuteCrypticGame.FindsOneWordMarker | components/game/MinuteCrypticGame.tsx:49-53 | the same for a one-word marker |
| MinuteCrypticGame.NoParenNoMarker | components/game/MinuteCrypticGame.tsx:49-50 | a clue without `(` has no marker |
| MinuteCrypticGame.ThreeNumbersAreNoMarker | components/game/MinuteCrypticGame.tsx:49-50 | "(5,6,3)" has no marker |
| MinuteCrypticGame.SlotsForClue | components/game/MinuteCrypticGame.tsx:49-55 | a marker `(n,m)` gives `n+m` empty slots; without a marker the slots stay as they were |
| MinuteCrypticGame.FiveSixGivesElevenSlots | components/game/MinuteCrypticGame.tsx:49-55 | a clue with `(5,6)` and no earlier `(` gives 11 slots |
| MinuteCrypticGame.WordBreakBoxes | components/game/MinuteCrypticGame.tsx:153-181 | a box shows the word gap exactly when the second word length is positive and the box index is the first word length |
| MinuteCrypticGame.OneBreakForTwoWords | components/game/MinuteCrypticGame.tsx:153-181 | for a two-word marker, exactly one drawn box shows the gap |
| MinuteCrypticGame.KeyPress | components/game/MinuteCrypticGame.tsx:66-73 | with the cursor on a box, the letter is written there and nowhere else, and the cursor becomes `min(pos+1, len-1)`; with the cursor past the end, nothing changes; the length never changes |
| MinuteCrypticGame.KeyPressOverwritesLastSlot | components/game/MinuteCrypticGame.tsx:71 | on the last box the cursor stays, so the next key overwrites that box |
| MinuteCrypticGame.Backspace | components/game/MinuteCrypticGame.tsx:75-86 | a filled box is cleared and the cursor kept; on an empty box with `pos > 0` the previous box is cleared and the cursor moves back; at box 0, empty, nothing changes; the length never changes |
| MinuteCrypticGame.Click | components/game/MinuteCrypticGame.tsx:185 | clicking a box selects it and leaves the letters alone |
| MinuteCrypticGame.Apply | components/game/MinuteCrypticGame.tsx:66-86 | every action keeps the slot count and a cursor in range |
| MinuteCrypticGame.Run | components/game/MinuteCrypticGame.tsx:29-86 | from a cursor in range, any sequence of key presses, backspaces and clicks keeps the slot count and `0 <= pos <= max(len-1, 0)` |
| MinuteCrypticGame.LetterBuffer.constructor | components/game/MinuteCrypticGame.tsx:28-29 | the buffer starts empty with the cursor at 0 |
| MinuteCrypticGame.LetterBuffer.LoadClue | components/game/MinuteCrypticGame.tsx:48-55 | the slots become those the clue's marker gives, and the cursor stays in range |
| MinuteCrypticGame.LetterBuffer.HandleKeyPress | components/game/MinuteCrypticGame.tsx:66-73 | the new letters and cursor are `KeyPress` of the old ones |
| MinuteCrypticGame.LetterBuffer.HandleBackspace | components/game/MinuteCrypticGame.tsx:75-86 | the new letters and cursor are `Backspace` of the old ones |
| MinuteCrypticGame.LetterBuffer.HandleClick | components/game/MinuteCrypticGame.tsx:185 | the new letters and cursor are `Click` of the old ones |
| MinuteCrypticGame.Join | components/game/MinuteCrypticGame.tsx:89 | the joined answer is empty exactly when every slot is empty |
| MinuteCrypticGame.AsWrittenAlwaysAsksToComplete | components/game/MinuteCrypticGame.tsx:89-94 | with the guard as written, `handleCheck` always stops at "Please complete all letters" |
| MinuteCrypticGame.HandleCheckSendsFullBoards | components/game/MinuteCrypticGame.tsx:88-105 | with the corrected guard, the validate request is sent exactly when there are slots, all filled, and nobody is signed in, and it carries the joined letters |
| MinuteCrypticGame.AfterValidate | components/game/MinuteCrypticGame.tsx:109-120 | an ok and correct reply records the solution with the answer, and the explanation when it is non-empty; any other reply changes nothing |
| DailyGame.TimerReadsBack | components/game/DailyGame.tsx:152 | the timer text is the minutes, a colon, then exactly two digits of seconds below 60, and together they read back as the elapsed time |
| DailyGame.TwoDigitSeconds | components/game/DailyGame.tsx:152 | the seconds part is always two digits and reads back as the seconds |
| DailyGame.TimerExample | components/game/DailyGame.tsx:152 | 65 seconds show as "1:05" |
| DailyGame.Stars | components/game/DailyGame.tsx:134 | for a difficulty `d` in 0..5, the star string has five characters, `d` filled stars then empty ones; outside that range `repeat` throws |
| DailyGame.BlankAnswerRefusedFirst | components/game/DailyGame.tsx:70-73 | "Please enter an answer" is shown exactly for an all-white-space answer, whether or not there is a session |
| DailyGame.SendsIff | components/game/DailyGame.tsx:70-91 | a request is sent exactly when there is a session and the answer is not blank |
| DailyGame.SentAnswerIsAcceptedAsTyped | components/game/DailyGame.tsx:83-91 | the trimmed answer sent is non-empty, passes the submit route's first two guards, and is judged the same as the answer as typed |
| DailyGame.SolutionOnlyOnCorrectReply | components/game/DailyGame.tsx:95-112 | the solution becomes `{isCorrect: true, userAnswer}` with the untrimmed answer only on an ok and correct reply; every other reply changes only `isSubmitting`, which always ends false |
| DailyGame.DailyGameView.constructor | components/game/DailyGame.tsx:27-33 | the page starts with the loaded solution and nothing submitting |
| DailyGame.DailyGameView.HandleSubmit | components/game/DailyGame.tsx:67-91 | the guards decide as `StartSubmit` does, and submitting starts only when a request is sent |
| DailyGame.DailyGameView.HandleReply | components/game/DailyGame.tsx:93-113 | the new state and toast are `AfterReply` of the old state and the reply |
| PuzzleForm.InitialDefaults | components/admin/PuzzleForm.tsx:22-28 | missing strings become `""`; a missing or zero difficulty becomes 3, and any other difficulty is kept |
| PuzzleForm.UpdatesAreLocal | components/admin/PuzzleForm.tsx:71-122 | each change handler writes its own field and leaves the other four unchanged |
| PuzzleForm.ValidateForm | components/admin/PuzzleForm.tsx:32-50 | the error keys are exactly the failing fields, each with its fixed message, and the form is valid exactly when clue and answer are not blank, the date is set and 1 <= difficulty <= 5 |
| PuzzleForm.HandleSubmit | components/admin/PuzzleForm.tsx:52-64 | `onSubmit` receives the form exactly when it validates |
| PuzzleForm.ValidFormHasRequiredFields | components/admin/PuzzleForm.tsx:35-46 | a valid form has a non-empty clue, answer and date and a non-zero difficulty |
| StaticPuzzles.FindByDate | data/puzzles.ts:37 | a lookup finds an entry with that date, the first one in table order, and finds nothing only when no entry has that date |
| StaticPuzzles.DistinctDates | data/puzzles.ts:10-27 | the table's dates are distinct |
| StaticPuzzles.Lookups | data/puzzles.ts:10-38 | "2025-12-25" gives puzzle-001, "2025-12-26" gives puzzle-002, every other date gives nothing, and today's puzzle is the lookup of today's date |
| StaticPuzzles.MarkersMatchAnswers | data/puzzles.ts:14-23 | each clue's marker is `(5,6)`, and 5 + 6 is the length of its answer |
| Store.SameUtcDayIsRange | app/api/puzzles/daily/route.ts:23-31 | two instants share a UTC date exactly when the first lies in `[dayStart, dayStart + 86400000)` of the second |
| Store.FindPuzzle | app/api/puzzles/submit/route.ts:30-32 | the row found has the id asked for; no row is found only when none has it |
| Store.FindSolution | app/api/puzzles/submit/route.ts:42-49 | the solution found belongs to that user and puzzle; none is found only when none exists |
| Store.ActivePuzzles | app/api/puzzles/daily/route.ts:14-17 | a row is kept exactly when it is active |
| Store.OrderByDateDesc | app/api/puzzles/daily/route.ts:18-20 | the ordered rows are a permutation of the input |
| Store.OrderByDateDescIsNewestFirst | app/api/puzzles/daily/route.ts:18-20 | the ordered rows are newest first |
| DailyRoute.WithoutAnswerDropsOnlyTheAnswer | app/api/puzzles/daily/route.ts:53-54 | the public puzzle is the row minus its answer: whatever the answer, the rest is the same |
| DailyRoute.FindOnDay | app/api/puzzles/daily/route.ts:23-31 | the puzzle found falls on today's UTC date; none is found only when no row does |
| DailyRoute.FindOnDayIsNewest | app/api/puzzles/daily/route.ts:18-31 | in newest-first order, the first match on today's date is the newest |
| DailyRoute.NotFoundIffNoCandidate | app/api/puzzles/daily/route.ts:33-38 | the answer is 404 exactly when no active puzzle falls on today's UTC date |
| DailyRoute.SendsNewestCandidate | app/api/puzzles/daily/route.ts:14-57 | otherwise the puzzle sent, without its answer, is active, falls on today and is the newest such puzzle |
| DailyRoute.SolutionOnlyForTheCaller | app/api/puzzles/daily/route.ts:41-60 | the solution is looked up only for a caller with an id; it is that caller's solution for that puzzle, it is found when it exists, and `hasSolved` says whether it was found |
| ValidateRoute.Validate | app/api/puzzles/validate/route.ts:11-36 | 400 exactly for an empty id or answer; 404 exactly for an unknown id; otherwise the verdict is the validator's against that puzzle's answer, with the explanation only when correct |
| ValidateRoute.ValidateUsesThePuzzle | app/api/puzzles/validate/route.ts:23-36 | with unique ids, the reply for a stored puzzle is its verdict and, only when correct, its explanation |
| SubmitRoute.GuardOrder | app/api/puzzles/submit/route.ts:13-56 | 401, 400, 404 and the duplicate 400 each fire exactly when the earlier guards pass and their own condition holds |
| SubmitRoute.RejectionChangesNothing | app/api/puzzles/submit/route.ts:13-56 | every rejection leaves the solution table unchanged |
| SubmitRoute.SuccessAppendsOneRow | app/api/puzzles/submit/route.ts:59-77 | a success appends one row: the caller's answer, the validator's verdict and `timeSpent \|\| 0`; the correct answer is sent only when wrong, the explanation only when right |
| SubmitRoute.SubmitKeepsKeysUnique | app/api/puzzles/submit/route.ts:42-70 | a submission keeps at most one solution per user and puzzle |
| SubmitRoute.Replay | app/api/puzzles/submit/route.ts:13-70 | handled one at a time, any run of requests keeps at most one solution per user and puzzle, and adds at most one row per request |
| SubmitRoute.SolutionTable.constructor | app/api/puzzles/submit/route.ts:42-49 | a table starts with unique keys |
| SubmitRoute.SolutionTable.Submit | app/api/puzzles/submit/route.ts:13-77 | the reply and the new table are `SubmitOutcome` of the old table, and keys stay unique |
| AdminRoute.CountSolutions | app/api/admin/puzzles/route.ts:20-24 | the count is zero exactly when no solution refers to the puzzle |
| AdminRoute.ListIsNewestFirst | app/api/admin/puzzles/route.ts:18-27 | an admin gets every puzzle once, newest first, each with its solution count |
| AdminRoute.NonAdminsChangeNothing | app/api/admin/puzzles/route.ts:11-147 | without the admin role every handler answers 401 and leaves the table unchanged |
| AdminRoute.DifficultyOrOne | app/api/admin/puzzles/route.ts:79 | a missing or zero difficulty becomes 1; any other value is kept, with no range check |
| AdminRoute.CreateOutcomes | app/api/admin/puzzles/route.ts:49-85 | 400 exactly for a missing field, then exactly for a taken date; a failure changes nothing; a success appends one active row with the given fields and `difficulty \|\| 1` |
| AdminRoute.CreateKeepsWellFormed | app/api/admin/puzzles/route.ts:62-83 | create keeps ids and publish dates unique |
| AdminRoute.ApplyPatch | app/api/admin/puzzles/route.ts:116-125 | each given field replaces the stored one, each absent field is kept, and the id and date never change |
| AdminRoute.EmptyPatchIsIdentity | app/api/admin/puzzles/route.ts:116-125 | an update with no fields changes nothing |
| AdminRoute.UpdateOutcomes | app/api/admin/puzzles/route.ts:107-133 | 400 exactly without an id, 500 exactly for an unknown id; a success changes only that row, and the table stays well formed |
| AdminRoute.RemoveRow | app/api/admin/puzzles/route.ts:159-161 | a row survives exactly when its id differs |
| AdminRoute.DeleteOutcomes | app/api/admin/puzzles/route.ts:149-169 | 400 exactly without an id, 500 exactly for an unknown id; a success removes exactly one row, the one with that id, and keeps the rest |
| AdminRoute.PuzzleTable.constructor | app/api/admin/puzzles/route.ts:18-19 | a table starts with unique ids and dates |
| AdminRoute.PuzzleTable.Create | app/api/admin/puzzles/route.ts:38-93 | the reply and new table are `CreateOutcome` of the old table, and the table stays well formed |
| AdminRoute.PuzzleTable.Update | app/api/admin/puzzles/route.ts:96-135 | the reply and new table are `UpdateOutcome` of the old table, and the table stays well formed |
| AdminRoute.PuzzleTable.Delete | app/api/admin/puzzles/route.ts:138-171 | the reply and new table are `DeleteOutcome` of the old table, and the table stays well formed |
| Middleware.MiddlewareBody | middleware.ts:10-14 | the middleware either passes the request on or redirects to "/" |
| Middleware.BodyRedirectsIff | middleware.ts:7-14 | it redirects to "/" exactly for an admin route without the admin role, and passes everything else |
| Middleware.AuthorizedIff | middleware.ts:18-24 | `authorized` refuses exactly admin routes without the admin role |
| Middleware.MatchedPathsAreAdminRoutes | middleware.ts:8-31 | every path the matcher selects starts with "/admin" |
| Middleware.GateOutcomes | middleware.ts:4-31 | a request passes exactly when it is outside the matcher or carries the admin role; otherwise it goes to sign-in, and the redirect to "/" is never reached |
| Middleware.AdministratorIsAdminRoute | middleware.ts:8-31 | "/administrator" counts as an admin route, but the matcher does not select it, so it passes |

## Left out

- Unicode case mapping and Unicode white space in `toLowerCase` and `\s`: the model lower-cases ASCII only. It uses one fixed white-space set for `\s` and `trim`: the JavaScript one, including the Unicode spaces it names.
- Rendering, styling, toasts' timers and ids, and the fetch, navigation and dialog glue of the admin pages: none of it decides anything the model states.
- The `setInterval` timer of the daily game: the elapsed seconds are a parameter.
- The host clock: "now" (daily route) and "today" (static lookup) are parameters.
- The host-timezone `setHours(0, 0, 0, 0)` in admin create: the normalised publish date is a parameter. Parsing the `publishDate` string is not modelled.
- The date part of `toISOString()` is represented by the UTC day number, not by the string itself.
- Prisma, next-auth and `fetch` internals are not modelled. Tables are sequences. Prisma failures are the routes' 500 branches. Cascades on delete are not modelled.
- The check-then-insert race between the duplicate check and the insert of a submission: handling is sequential only.
- `NaN` and floating-point difficulties, and `parseInt` overflow on very long digit strings: numbers are unbounded integers.
- JSON fields of a type other than the expected one, and `null` for a required field in an admin update.
- The game's hint handler, `handleHint`, is not part of this model.
- MinuteCrypticGame.LetterBuffer.LoadClue: requires the cursor at 0. The clue arrives once, when the component mounts, before any key can be pressed.
- MinuteCrypticGame.Click: requires an index of a drawn box. Only drawn boxes can be clicked; `Apply` treats any other index as no change.
- DailyGame.Stars: a non-integer difficulty is not modelled; the database column is an integer.
- The CLI scripts and the type-only files are not part of this model.

## Findings

| source | as written | input that shows it | evidently intended | confidence | as-written member | corrected member |
|---|---|---|---|---|---|---|
| components/game/MinuteCrypticGame.tsx:91 | `answer.includes('')` is true for every string, so `handleCheck` always shows "Please complete all letters" and never calls the validate route | every filled board, e.g. the 11 slots of "OLIVEGARDEN" | stop only when some slot is still empty, i.e. `currentLetters.includes('')` | not executed | MinuteCrypticGame.AsWrittenAlwaysAsksToComplete | MinuteCrypticGame.HandleCheckSendsFullBoards |
