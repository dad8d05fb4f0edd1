# A Wordle-style game of Russian five-letter words, in Dafny

This project models the core of a browser game in which the player has six
tries to guess a five-letter Russian word. Two parts are modelled:

- **The scorer** (`evaluateGuess` in `js/game.js`). It marks every letter of a
  guess `correct`, `present` or `absent` in two passes. Pass one marks exact
  positional matches and consumes those target positions. Pass two goes left
  to right and gives each remaining letter the first unconsumed target position
  holding it, or marks it absent.
- **The session** (`resetState`, `handleKeyPress`, `addLetter`, `deleteLetter`,
  `submitGuess`, `getCurrentGuess`, `newGame` in `js/game.js`). It is a state
  machine over key presses. It includes the parts of `UIController` that hold
  state: the text and status class of each board cell, and the status recorded
  on each key of the virtual keyboard (`updateCell`, `updateRowStatus`,
  `createBoard`, `resetKeyboard`).

Modules, one per concern:

| file | module | what it holds |
|---|---|---|
| optional.dfy | Optional | `Option` |
| rules.dfy | Rules | `WordLength` = 5, `MaxAttempts` = 6 |
| letters.dfy | Letters | the Cyrillic letter class of the key regex and upper-casing |
| scoring.dfy | Scoring | the scorer, index for index as the JavaScript does it |
| scoring_laws.dfy | ScoringLaws | a pool-based reference scorer, proved equal to it, and the duplicate-letter laws |
| scoring_loop.dfy | ScoringLoop | the imperative scorer (`usedTargetIndexes`, two loops, `findIndex`), proved equal to the functional one |
| ui.dfy | Ui | board cells, key statuses, and the status priority merge |
| session.dfy | Session | the game state and its transitions |
| session_laws.dfy | SessionLaws | the session invariant and properties over runs of key presses |

Notes on the model:

- The target comes from an external dictionary, so its length is not fixed.
  A guess position past the end of the target is never an exact match. In
  JavaScript the letter is compared with `undefined`. The search of pass two
  scans the whole target. A non-empty target of another length can never be
  won. The game assumes five-letter dictionary words (`WORD_LENGTH`), but
  nothing checks the drawn word's length, and the model follows the code.
- `isProcessing` is raised and lowered inside one `submitGuess` call with no
  `await` between. So it is false in every state the game reaches. The model
  keeps the flag and the check on it.
- The key regex accepts Ё, but the on-screen keyboard has no Ё key. A guessed
  Ё therefore never colours any key (`Ui.HasKey`).
- A key's status is the maximum of its old and new statuses under
  absent < present < correct (`Ui.MergeKey`). After a row, each key holds the
  maximum of its old status and every status the row gives that letter
  (`Ui.UpdateKeysClosedForm`).

## Model

| member | source | states |
|---|---|---|
| Scoring.FirstFree | js/game.js:137 | Returns the first unconsumed target position holding the letter, or none; every position skipped before it is consumed or holds another letter. |
| Scoring.ExactPositions | js/game.js:125-131 | Pass one consumes exactly the positions where guess and target agree, all of them inside the target. |
| Scoring.Scan | js/game.js:133-145 | Pass two yields one mark per remaining position, carrying that position's letter; a mark is correct exactly at an exact match. |
| Scoring.Evaluate | js/game.js:119-147 | Exactly five marks; mark i carries guess[i]; mark i is correct iff i lies inside the target and guess[i] equals target[i]. |
| Scoring.AllCorrectIffMatch | js/game.js:126-131 | A guess equal to the target scores all-correct; for a five-letter target, all-correct happens only for the target itself, in agreement with the win test at line 97. |
| ScoringLaws.EvaluateIsReference | js/game.js:119-147 | The index-based scorer equals a reference scorer that draws letters from a multiset of the target letters pass one left unconsumed. |
| ScoringLaws.HitsLaw | js/game.js:134-145 | For every letter, the number of non-absent marks equals the minimum of its count in the guess and its count in the target, so it never exceeds the target's count. |
| ScoringLaws.LeftmostWin | js/game.js:134-144 | Among the marks of one letter, no absent mark comes before a present mark. |
| ScoringLaws.MissingLetterAbsent | js/game.js:137-144 | A letter that does not occur in the target is absent at every position where it is guessed. |
| ScoringLaws.ExampleNoExactMatch | js/game.js:119-147 | Target СЛОВО, guess ВОЛНА scores present, present, present, absent, absent. |
| ScoringLaws.ExampleExactBeatsLeftmost | js/game.js:119-147 | Target СЛОВО, guess ОКОЛО scores absent, absent, correct, present, correct: exact matches take the target's О's before the first О is looked at. |
| ScoringLoop.FindIndex | js/game.js:137 | The left-to-right search returns -1 exactly when no free matching position exists, and otherwise the first one. |
| ScoringLoop.MarkExact | js/game.js:120-131 | After the first loop, the flags mark exactly the exact-match positions, and only those slots of the result are filled, with correct. |
| ScoringLoop.MarkRest | js/game.js:133-146 | The second loop completes the result to exactly the marks of the functional scorer. |
| ScoringLoop.EvaluateGuess | js/game.js:119-147 | The two loops together compute exactly the functional scorer's result. |
| Ui.CreateBoard | js/UIController.js:12-26 | Six rows of five cells, every cell without text and without status. |
| Ui.UpdateCell | js/UIController.js:66-71 | Cell (row, col) gets the new text and keeps its status; every other cell is unchanged; a position off the board changes nothing. |
| Ui.MarkRow | js/UIController.js:79-84 | Cell (row, col) gets the status of result[col]; cells of other rows are unchanged and no cell's text changes. |
| Ui.MergeKey | js/UIController.js:88-98 | The new key status is the higher-ranked of the old and the incoming status: no status or absent is overwritten, correct stays correct, present is never downgraded. |
| Ui.UpdateKeys | js/UIController.js:78-101 | Applying a row never lowers a key's rank, records only keys that exist, and leaves keys of letters not in the row unchanged. |
| Ui.UpdateKeysClosedForm | js/UIController.js:78-101 | Each existing key ends with the maximum of its old status and every status the row gives its letter; other keys are unchanged. |
| Ui.UpdateKeysOrderIndependent | js/UIController.js:78-101 | Two rows holding the same entries, in any order, give the same keyboard. |
| Ui.UpdateKeysIdempotent | js/UIController.js:78-101 | Applying the same row twice gives the same keyboard as applying it once. |
| Ui.ResetKeyboard | js/UIController.js:129-137 | Afterwards no key has a recorded status. |
| Session.RowWord | js/game.js:110-117 | A full row spells a five-letter word whose letter c is the upper-cased text of cell c. |
| Session.ResetState | js/game.js:14-25 | Row and column return to 0 and processing is cleared; the game is over exactly when the drawn word is empty; the target is the upper-cased word; board and keys are untouched. |
| Session.NewGame | js/game.js:149-154 | A new game starts in a state satisfying the session invariant, whose target is the upper-cased drawn word, with a blank board, no key statuses, the cursor at (0, 0), and over exactly when no word was drawn. |
| Session.AddLetter | js/game.js:73-76 | The letter lands in the cell under the cursor, whose colour is kept; the column advances by one; nothing else on the board, the keyboard or the game flags changes. |
| Session.DeleteLetter | js/game.js:78-83 | With column > 0 the column goes back one and that cell's letter is cleared, its colour kept, nothing else changing; at column 0 nothing changes. |
| Session.Submit | js/game.js:85-108 | An incomplete row changes nothing. A full row is coloured with its score, other rows are untouched, and the keyboard takes the row's statuses (`Ui.UpdateKeys`). An exact match ends the game on the same row and column. A miss on the last row ends the game there. Any other miss moves to column 0 of the next row. Processing is false afterwards. |
| Session.Step | js/game.js:52-71 | A game that is over or processing ignores every key. Enter is exactly a submission, Backspace/Delete exactly an erase. A single Cyrillic letter is exactly `addLetter` of its upper-cased form while the row has room, and changes nothing on a full row. Any other key changes nothing. The cursor stays on the board. |
| SessionLaws.AddLetterKeepsValid | js/game.js:68-76 | Typing a letter keeps the session invariant. |
| SessionLaws.DeleteLetterKeepsValid | js/game.js:78-83 | Erasing keeps the session invariant. |
| SessionLaws.SubmitKeepsValid | js/game.js:85-108 | Submitting keeps the session invariant: the submitted row becomes a scored miss above the cursor, or the final row of a finished game. |
| SessionLaws.StepKeepsValid | js/game.js:52-71 | Every key press keeps the session invariant. |
| SessionLaws.RunKeepsValid | js/game.js:52-108 | Any sequence of key presses keeps the session invariant. |
| SessionLaws.Reachable | js/game.js:149-154 | Every state reachable from a new game satisfies the invariant: row < 6, column <= 5, processing false. |
| SessionLaws.OverIgnoresInput | js/game.js:59-62 | Once the game is over, any sequence of key presses leaves the state unchanged. |
| SessionLaws.RowNeverDecreases | js/game.js:103-106 | The row cursor never moves back during a game. |
| SessionLaws.Outcome | js/game.js:97-102 | For a finished game with a five-letter word, the last row is coloured all-correct exactly when it is the word, and a game not won ended on the sixth row. |

## Left out

- api/webhook.js: an HTTP handler that validates a request body and relays it to a configured URL. It is network plumbing with no algorithm. It requires all four fields `result`, `word`, `attempts` and `telegram_id` (lines 13-15).
- js/words.js: fetching the dictionary and `Math.random` selection are I/O and randomness. The drawn word is a parameter of `ResetState`/`NewGame`, including the empty string `getRandomWord` returns when the dictionary is empty. `isValidWord` is never called by the game.
- DOM effects: the elements built by `createBoard`/`createKeyboard`, the `shakeRow` animation, `showMessage`/`alert`, event-listener wiring and `console.log` output. The board and keyboard are plain data. Of `createKeyboard`, only its set of `data-key` values is kept (`Ui.KeyNames`).
- `async` scheduling: `submitGuess` has no `await`, so it is one atomic step.
- Letters.Upper: models `toUpperCase` only for ASCII letters and the Cyrillic block U+0400..U+045F. Other characters are left unchanged, and multi-character upper-case forms do not occur.
- Ui.MarkRow: a cell keeps a single status, while the page's `classList` would collect several `status-*` classes if a row were coloured twice. By `SessionLaws.SubmitKeepsValid`, no row is coloured twice.
- Session.CurrentGuess: states only that the guess has five letters. Its letters are described by `Session.RowWord`, which it returns.
