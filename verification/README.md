# StudyPassWin flashcards: a Dafny model

This project models the core of StudyPassWin, a flashcard application. Admins
upload sets of question/answer cards as CSV and assign sets to users. Users
review the cards one at a time and record whether they answered correctly. The
server aggregates those answers into per-card and per-set statistics under the
"n+1" mastery rule: a card is mastered once its correct answers outnumber its
incorrect ones by at least one.

The project has these modules:

- `Records`: the stored records (sets, cards, assignments, attempts) and the
  errors the handlers raise.
- `Mastery`: the statistics.
  - `GroupByCard` and `Aggregate` are the two loops of getAssignedSets.
  - `ViewOf` and `FlashcardList` are the per-card part of getFlashcards.
  - Both are proved against set-based reference definitions: `StatsOf`,
    `MasteredIds` and `ProgressOf`.
- `Flashcards`: the handlers of `convex/flashcards.ts`.
  - They live on a `Store` class whose fields are the database tables: sets,
    cards, assignments, progress, admins, and an id counter.
  - Each mutation changes the tables in place and states its whole new state.
  - The queries are a function (getFlashcards) and a method (getAssignedSets).
- `Text`: the JavaScript `trim` and one-character `split` that the upload uses.
- `AdminPanel`: the admin screen's logic.
  - `parseCSVLine` is a loop over characters, specified by the state machine `Scan`.
  - The row loop of `handleSubmit` is `CollectCards`, and the whole upload is `HandleSubmit`.
  - The rounded "% mastered" label is `MasteredPercent`.
- `Review`: the review screen.
  - The class `ReviewSession` holds the component's state: `currentIndex`,
    `showHint`, `showAnswer` and `isSubmitting`, plus whether the screen was left.
  - Each handler is specified by the transition function `Step`.

Other conventions:

- Database ids are natural numbers drawn from one counter, `nextId`.
- The signed-in user is an `Option<UserId>`, where `None` means not signed in.
- A thrown `Error` becomes the `Err`/`Fail` value of a `Result`/`Outcome`.

The review screen, as written:

- It shows the cards in the order getFlashcards returns them, which is
  ascending `order`; the session's list is that query's result for the
  signed-in user and the set.
- "Next" exists only once the answer is shown.
- `handleNext` leaves `isSubmitting` as it is.

## Model

| member | source | states |
|---|---|---|
| Flashcards.Store.RequireAccess | convex/flashcards.ts:128-138 | Ok exactly when the caller is signed in and the set is assigned to them; otherwise `NotAuthenticated` or `NoAccess` |
| Flashcards.Store.RequireAdmin | convex/flashcards.ts:315-320 | Ok exactly when the caller is signed in and has an admin record; otherwise `NotAuthenticated` or `AdminRequired` |
| Flashcards.FindSet | convex/flashcards.ts:34-35 | the set with that id when one exists, none otherwise |
| Flashcards.CardsOf | convex/flashcards.ts:37-40 | exactly the cards whose `setId` is the set |
| Flashcards.AttemptsFor | convex/flashcards.ts:42-47 | exactly the attempts of that user on that set |
| Flashcards.FirstAssignment | convex/flashcards.ts:381-386 | some assignment of the pair exactly when the pair is assigned |
| Mastery.GroupByCard | convex/flashcards.ts:50-63 | the map's keys are exactly the cards with attempts, listed once each in the order of their first attempt (`FirstSeen`); each card's counters equal its correct and incorrect attempt counts |
| Mastery.Aggregate | convex/flashcards.ts:65-90 | the result equals the order-free `ProgressOf`: reviewed = distinct cards attempted, correct/incorrect = attempt totals, mastered = cards meeting n+1, progress = mastered / total × 100 or 0 |
| Mastery.Percent | convex/flashcards.ts:90 | 0 for a set without cards, within [0, 100] when mastered ≤ total, 100 when all are mastered |
| Mastery.OrderIndependent | convex/flashcards.ts:52-90 | two attempt logs with the same attempts in any order give the same set statistics |
| Mastery.TotalsPartitionAttempts | convex/flashcards.ts:58-62 | correct + incorrect totals equal the number of attempts |
| Mastery.CountsPartitionAttempts | convex/flashcards.ts:156-157 | per card, correct + incorrect equals that card's number of attempts |
| Mastery.MasteredWithinReviewed | convex/flashcards.ts:73-79 | masteredCards ≤ reviewedCards |
| Mastery.BoundedByCards | convex/flashcards.ts:79-90 | when every attempt is on a card of the set: reviewed ≤ total, mastered ≤ total, 0 ≤ progress ≤ 100 |
| Mastery.TwoToOneIsMastered | convex/flashcards.ts:73 | two correct and one incorrect answer master a card; a second incorrect answer un-masters it |
| Mastery.AttemptsOn | convex/flashcards.ts:148-153 | exactly the attempts on that card, in log order |
| Mastery.CountOn | convex/flashcards.ts:155-157 | counting correct (incorrect) answers among a card's attempts is counting them in the whole log for that card |
| Mastery.LastIndexOnMeaning | convex/flashcards.ts:165 | the last of a card's attempts is the latest attempt on that card in the log |
| Mastery.ReviewedIffAttempted | convex/flashcards.ts:164 | a card has attempts iff it is among the attempted cards |
| Mastery.ViewOfMeaning | convex/flashcards.ts:155-169 | hasBeenReviewed iff the card has an attempt; lastResult is null iff not reviewed, otherwise the newest attempt's `correct`; counters and isMastered agree with `StatsOf` / `MasteredIds` |
| Mastery.InsertByOrder | convex/flashcards.ts:173 | inserting into a list sorted by `order` keeps it sorted and adds exactly that element |
| Mastery.SortByOrder | convex/flashcards.ts:173 | result sorted ascending by `order` and a permutation of the input |
| Mastery.FlashcardList | convex/flashcards.ts:146-173 | one view per card, sorted by `order`, each view the card's `ViewOf`, and every card's view present; a permutation of the unsorted views |
| Flashcards.Store.GetAssignedSets | convex/flashcards.ts:22-97 | `NotAuthenticated` iff signed out; otherwise exactly `Summaries` of the assignment table: one `ProgressOf` summary per assignment of the caller whose set still exists, in assignment order |
| Flashcards.Store.SummariesMeaning | convex/flashcards.ts:27-35 | every summary reports an assignment of the user whose set exists, and every such assignment is reported |
| Flashcards.Store.GetFlashcards | convex/flashcards.ts:123-174 | fails exactly as the access guard does; otherwise one view per card of the set, sorted by `order`, each the view of that card over the caller's attempts |
| Flashcards.Store.RecordAnswer | convex/flashcards.ts:178-208 | with access, appends exactly one attempt (caller, set, card, correct) and nothing else changes; without it, nothing changes and the guard's error is returned |
| Flashcards.RecordedAnswerCounts | convex/flashcards.ts:199-204 | recording an answer raises exactly the matching counter of that card, by one, and no other card's counters |
| Flashcards.Store.ResetProgress | convex/flashcards.ts:211-244 | with access, the progress table becomes `ClearPair`: all of the caller's attempts on the set are removed and every other attempt kept, ids stay unique; without access nothing changes |
| Flashcards.ResetDeletesThePair | convex/flashcards.ts:230-240 | deleting the collected records by id removes exactly the (user, set) attempts |
| Flashcards.ClearPair | convex/flashcards.ts:230-240 | an attempt survives iff it is not of that user and set |
| Flashcards.ResetClearsProgress | convex/flashcards.ts:230-240 | after a reset the set reports reviewed = 0, mastered = 0 and no card reviewed |
| Flashcards.ResetKeepsOthers | convex/flashcards.ts:231-236 | a reset leaves every other (user, set) attempt log unchanged |
| Flashcards.Store.CreateFlashcardSet | convex/flashcards.ts:304-340 | non-admins change nothing; an admin gets a new set (name, description, creator) and one card per input, in input order, ids after the set's, `order` = position |
| Flashcards.NumberedCards | convex/flashcards.ts:328-336 | card `j` carries input `j`'s question, answer and hint, the new set id and `order` `j` |
| Flashcards.NewSetCards | convex/flashcards.ts:37-40 | the new set's cards are exactly the inserted ones, in insertion order |
| Flashcards.Store.AssignSetToUser | convex/flashcards.ts:367-400 | succeeds iff the caller is an admin and the pair is not yet assigned; then exactly one assignment is appended; (user, set) pairs stay unique |
| Flashcards.Store.RemoveSetAssignment | convex/flashcards.ts:403-429 | for an admin, the pair's assignment is removed and nothing else; an absent pair changes nothing |
| Flashcards.DeleteIsUnassign | convex/flashcards.ts:416-425 | deleting the found assignment by id is removing the pair |
| Flashcards.UnassignKeepsUnique | convex/flashcards.ts:416-425 | removing an assignment keeps ids and pairs unique |
| Flashcards.UnassignIdempotent | convex/flashcards.ts:423-425 | removing twice is removing once |
| Text.Trim | src/AdminPanel.tsx:109 | `trim` never lengthens a string |
| Text.TrimIsTrimmed | src/AdminPanel.tsx:109 | the result neither starts nor ends with whitespace |
| Text.TrimKeepsChars | src/AdminPanel.tsx:109 | trimming only removes characters |
| Text.TrimBlank | src/AdminPanel.tsx:132 | a string trims to empty iff it is all whitespace |
| Text.TrimOfTrimmed | src/AdminPanel.tsx:109 | trimming a trimmed string leaves it as it is |
| Text.SplitOn | src/AdminPanel.tsx:132 | `split` yields at least one piece and no piece contains the separator |
| Text.JoinSplit | src/AdminPanel.tsx:132 | joining the pieces of a split with the separator gives back the string |
| Text.SplitJoin | src/AdminPanel.tsx:132 | splitting a join of separator-free pieces gives back the pieces |
| Text.SplitLine | src/AdminPanel.tsx:132 | splitting a newline-free first line, a newline and the rest gives that line followed by the pieces of the rest |
| AdminPanel.ParseCsvLine | src/AdminPanel.tsx:92-120 | the character loop computes `ParseLine`: at least one field, every field trimmed |
| AdminPanel.ScanTrimmed | src/AdminPanel.tsx:109-117 | every field the parser emits is trimmed |
| AdminPanel.FieldCount | src/AdminPanel.tsx:100-117 | the number of fields is one more than the number of commas outside quotes |
| AdminPanel.LineFieldCount | src/AdminPanel.tsx:92-120 | a line has one field more than it has unquoted commas |
| AdminPanel.SplitWhenUnquoted | src/AdminPanel.tsx:92-120 | a line without quotes parses to its comma-separated pieces, each trimmed |
| AdminPanel.LoneQuotesDropped | src/AdminPanel.tsx:100-107 | with no doubled quote in the line, no field contains a quote: every lone quote only toggles quoting |
| AdminPanel.QuotedField | src/AdminPanel.tsx:100-107 | inside quotes, an escaped field up to its closing quote is read back as the field's text, commas and quotes included |
| AdminPanel.LineRoundTrip | src/AdminPanel.tsx:92-120 | parsing a line written with every field quoted and quotes doubled gives back the fields, trimmed |
| AdminPanel.ParseEncodeLine | src/AdminPanel.tsx:92-120 | for trimmed fields, parsing the written line gives back exactly the fields |
| AdminPanel.RowToCard | src/AdminPanel.tsx:136-143 | a card iff the row has at least 2 fields; question = field 0, answer = field 1, hint = field 2 or undefined when missing or empty |
| AdminPanel.NonBlankKeeps | src/AdminPanel.tsx:132 | exactly the lines that are not blank after trimming are kept |
| AdminPanel.CardsFromRowsMeaning | src/AdminPanel.tsx:133-145 | every row with at least 2 fields yields its card, and every card comes from such a row |
| AdminPanel.CollectCards | src/AdminPanel.tsx:132-144 | the row loop computes `CardsFromCsv`: the first non-blank line is skipped and each further row is mapped by `RowToCard` |
| AdminPanel.HeaderSkipped | src/AdminPanel.tsx:135 | a non-blank first line is the header and is not a data row |
| AdminPanel.BlankLineIgnored | src/AdminPanel.tsx:132 | a blank line before the header does not change the data rows |
| AdminPanel.RowRoundTrip | src/AdminPanel.tsx:134-143 | a card written as a row, with trimmed fields free of newlines and a non-empty or absent hint, reads back as itself |
| AdminPanel.ImportRoundTrip | src/AdminPanel.tsx:132-144 | a header line followed by such cards written as rows imports as exactly those cards, in order |
| AdminPanel.HandleSubmit | src/AdminPanel.tsx:122-164 | an empty name, description or file is `MissingFields`; a complete form without cards is `NoValidCards`; a complete form with cards and a refused caller is exactly `Rejected` with the guard's error; all three leave the store unchanged; otherwise a new set whose id is the next fresh id, with one card per row, in order |
| AdminPanel.MasteredPercent | src/AdminPanel.tsx:545-547 | `Math.round(m / t × 100)` for t > 0, else 0: within [0, 100] when m ≤ t |
| AdminPanel.MasteredPercentRounds | src/AdminPanel.tsx:546 | the label is the exact percentage rounded half up: within half a point below and strictly less than half a point above |
| Review.CurrentCard | src/FlashcardReview.tsx:29-46 | no current card exactly when the list is empty |
| Review.InitialInv | src/FlashcardReview.tsx:16-19 | the first screen shows card 0 with hint and answer hidden, and is a valid state |
| Review.StepKeepsInv | src/FlashcardReview.tsx:46-74 | every event keeps the index on a card (0 for an empty list) and a shown hint on a card that has one |
| Review.RunKeepsInv | src/FlashcardReview.tsx:46-74 | the same along any sequence of events |
| Review.NoSkip | src/FlashcardReview.tsx:124-164 | the index moves only on Next, only with the answer shown, only by one, never from the last card |
| Review.NextMoves | src/FlashcardReview.tsx:66-74 | Next on a non-last card advances by one and hides hint and answer; on the last card it leaves the screen at the same index; `isSubmitting` untouched |
| Review.AnswerStaysOnCard | src/FlashcardReview.tsx:49-64 | answering disables the buttons during the write, then restores the same card, hint and answer with `isSubmitting` false |
| Review.HintOnlyWhenOffered | src/FlashcardReview.tsx:105-113 | the hint is shown only for a card with a non-empty hint, while the answer is hidden |
| Review.EmptyListInert | src/FlashcardReview.tsx:29-44 | an empty list has no current card and only Back has an effect |
| Review.FinishedIsFinal | src/FlashcardReview.tsx:71-73 | once the screen is left, no event changes it |
| Review.RunIndexBounds | src/FlashcardReview.tsx:66-70 | along any events the index never decreases and grows at most by the number of Next clicks |
| Review.RevealNextVisits | src/FlashcardReview.tsx:124-164 | k rounds of Reveal then Next from the start show card k with hint and answer hidden |
| Review.ProgressWidthBounds | src/FlashcardReview.tsx:95 | the bar width is in (0, 100] and is 100 exactly on the last card |
| Review.ReviewSession.constructor | src/FlashcardReview.tsx:13-19 | the list is the caller's getFlashcards result for the set, so it is sorted by `order` and every card is on the set; index 0, hint and answer hidden, not submitting |
| Review.ReviewSession.RevealAnswer | src/FlashcardReview.tsx:124-130 | the new state is `Step(Reveal)` of the old one |
| Review.ReviewSession.ShowHint | src/FlashcardReview.tsx:105-113 | the new state is `Step(AskHint)` of the old one |
| Review.ReviewSession.HandleAnswer | src/FlashcardReview.tsx:49-64 | while the screen is open with the answer buttons enabled, records one attempt for the card on screen, a card of the set, through `RecordAnswer` (one new id on success, none on failure) and ends with `isSubmitting` false and the same card; otherwise nothing changes |
| Review.ReviewSession.HandleNext | src/FlashcardReview.tsx:66-74 | the new state is `Step(Next)` of the old one |
| Review.ReviewSession.GoBack | src/FlashcardReview.tsx:79-84 | the screen is left |

## Left out

- The Convex runtime is not modelled: asynchronous database calls, indexes,
  `Promise.all`, and authentication through `getAuthUserId`. Its effect is a
  caller id (or none) passed as a parameter, and tables kept as sequences in
  insertion order.
- getFlashcardSet, getAllSets, getAllUsers, updateFlashcardSet,
  isCurrentUserAdmin and getSetAssignments are not part of this model. They are
  queries and patches with no logic of their own. All but isCurrentUserAdmin
  use the guards modelled here; isCurrentUserAdmin has no guard and answers
  false for a signed-out caller.
- getAllUserProgress, which feeds the progress tab, is not part of this model.
  Only the tab's percentage expressions are modelled.
- Numbers are exact: rationals and unbounded integers. IEEE double rounding in
  `mastered / total * 100` is not modelled.
- AdminPanel.MasteredPercent: `Math.round` is modelled as rounding half up on
  the exact rational. A double that lands just below .5 is not modelled.
- `FileReader`, `toast`, `isUploading`, clearing the form, the file input, and
  all JSX and styling are browser I/O and presentation.
- Review.ReviewSession.HandleAnswer: the write runs to completion inside the
  handler. Other events that could interleave with the pending write (a Next
  click while submitting) are modelled as separate `Step` events, not as
  concurrency.
- Mastery.SortByOrder: the contract states a sorted permutation. It does not
  state that cards with equal `order` keep their insertion order, as
  JavaScript's stable sort does.
- Review.ReviewSession.constructor: the session starts from a loaded list. The
  loading spinner before the query answers, an error thrown by the query, and
  the live query re-sending updated statistics after an answer are not
  modelled; the list keeps the statistics it had when the screen opened.
- The per-card `isMastered` flag that getAssignedSets writes into its map is
  never read, so the map holds only the two counters.
- Text.Trim: whitespace is the fixed ECMAScript set (WhiteSpace and
  LineTerminator, with the Unicode space separators). Strings are sequences of
  Unicode characters rather than UTF-16 code units. Surrogate halves are never a
  quote, a comma, a newline or whitespace, so parsing and trimming are unaffected.
