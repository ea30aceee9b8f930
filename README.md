# Turdle game rules engine in Dafny

This project models the rules engine of a browser Wordle-style game. A player fills five-letter
guesses into a 6 x 5 grid of inputs. Each submitted row is looked up in the word list. An unlisted row is
cleared. A listed row is scored letter by letter against the secret word (correct-location,
wrong-location, wrong), on the cells and on the on-screen letter key. The game then ends on a win or
at the sixth row, or it opens the next row. Finished games are summarised on a statistics panel.

Modules:

- `Feedback` (feedback.dfy): the per-letter classification of `compareGuess`, as pure functions. `Classify`
  tests in the source's order: present-but-elsewhere first, then same place, then absent. Its contract
  restates it in the usual order: same place, else present, else absent. Presence is not
  frequency-aware, exactly as in the source.
- `Turns` (turns.dfy): the branch `submitGuess` takes (`Decide`) and its effect on the current row
  (`RowAfter`). `Replay` runs a sequence of submissions, with lemmas about where the row can go.
- `Stats` (stats.dfy): the counting loop of `updateStats` as a method proved against the recursive
  functions `Wins` and `GuessTotal`. `Math.round` of a non-negative ratio a/b is computed exactly as
  (2a + b) div 2b.
- `Session` (session.dfy): the page's module-level state and DOM state as the class `Game`. The 30 inputs
  are an `array<Cell>`; each cell has a text, a disabled flag and a set of feedback classes. The key spans
  are a fixed label list plus an `array<set<Mark>>` of their classes. The other fields are `currentRow`, `guess`,
  `winningWord` and `focus`, the focused input's index. Each handler is a method with the source's
  loop. Its `ensures` gives the new board as a function of the old one (`ClearRow`, `OpenRow`,
  `ScoreRow`, `ScoreKeys`, `WipeBoard`). `SubmitGuess` is tied to `Turns.Decide` and `Turns.RowAfter`. So
  the row lemmas of `Turns` hold for every run of submissions. Every handler keeps `Valid()`:
  `currentRow` is in [1, 6], the secret is a listed word, and exactly the current row's cells are
  enabled. `checkForWin` is the predicate `Game.CheckForWin`.

A cell's row is its index div 5 plus 1; this is what the `-row-` part of each input's id encodes.
Focusing a disabled input does nothing, as in a browser (`Game.Focus`).

Three points of the code's behaviour that are easy to misread:

- Key classes accumulate. The code only ever calls `classList.add` on a key (index.js:148,151,154). So a
  key's classes pile up until `clearKey` removes them (index.js:279-283). `ScoreKeys` adds classes and
  never removes one.
- `currentRow` never passes 6 (index.js:104-107). A listed, non-winning guess at row 6 ends the game, and
  `currentRow` stays 6 (`Turns.SixMissesEndTheGame`).
- `checkIsWord` is not a pure lookup: it assigns the module-level `guess` (index.js:117-121), and
  `Game.CheckIsWord` does the same.

## Model

| member | source | states |
|---|---|---|
| `Feedback.Classify` | index.js:146-155 | a letter is correct-location iff the secret has it at that position; wrong-location iff not there but somewhere in the secret; wrong iff absent from the secret |
| `Feedback.Marks` | index.js:141-157 | one mark per guess letter, in letter order, each classified by the rule above |
| `Feedback.AllCorrectIffSolved` | index.js:146-151 | for a guess as long as the secret, every letter is correct-location exactly when the guess equals the secret |
| `Feedback.RepeatedLetterMarkedTwice` | index.js:146-148 | the presence test ignores multiplicity: "geese" against "crane" marks two e's wrong-location and the last e correct-location |
| `Feedback.CrateAgainstCrane` | index.js:141-157 | "crate" against "crane" gives correct, correct, correct, wrong, correct |
| `Turns.Decide` | index.js:98-114 | an unlisted guess is rejected; a listed one ends the game as won when it is the secret; else it opens the next row below row 6; else it ends the game as lost |
| `Turns.RowAfter` | index.js:102-108 | only opening the next row moves the row, and by exactly one |
| `Turns.ReplayStaysInRange` | index.js:102-108 | from a row in [1, 6], no sequence of submissions takes the row outside [1, 6] |
| `Turns.ReplayMonotonic` | index.js:188-191 | the row never decreases |
| `Turns.RejectedKeepRow` | index.js:109-113 | rejected guesses never change the row |
| `Turns.MissesAdvance` | index.js:104-105 | each listed, non-winning guess below row 6 advances the row by one |
| `Turns.SixMissesEndTheGame` | index.js:102-108 | five misses from row 1 reach row 6; the sixth miss ends the game as lost and the row stays 6 |
| `Stats.RoundedRatio` | index.js:237-238 | the result is the nearest integer to a/b, halves rounded up (Math.round on a non-negative ratio) |
| `Stats.UpdateStats` | index.js:221-239 | totals are the number of records, the number of solved records and the sum of guesses; the displayed figures are set (average and percent rounded) only when there is a game, else left as they were; percent is at most 100 |
| `Stats.WinsAtMostGames` | index.js:229-232 | no more games are won than played |
| `Stats.PercentAtMostHundred` | index.js:238 | the rounded winning percentage is at most 100 |
| `Stats.GuessTotalBounds` | index.js:233 | the guess sum lies between n times the smallest and n times the largest per-game count |
| `Stats.AverageInRowRange` | index.js:237 | when every record has 1 to 6 guesses, the rounded average is between 1 and 6 |
| `Stats.ThreeGameExample` | index.js:226-238 | records (won in 3, lost in 6, won in 5) give 2 wins, 14 guesses, average 5, percent 67 |
| `Session.RowTextIsRowCells` | index.js:116-126 | the text assembled for a row is its five cells' texts concatenated in index order |
| `Session.SingleLetterRowSpellsFive` | index.js:119-123 | a row whose five cells hold one letter each assembles a five-letter guess |
| `Session.LastKey` | index.js:172-179 | the key chosen is the last one whose label is the letter; no key exactly when the letter has none |
| `Session.KeyMarksExactly` | index.js:141-157 | a key receives a mark iff some guess letter whose (last) key it is was classified with that mark |
| `Session.WinningKeysAllCorrect` | index.js:146-151 | scoring the secret itself gives every key only the correct-location class |
| `Session.Game.constructor` | index.js:34-48 | page load then setGame: empty, uncoloured board; only row 1 enabled; secret is the chosen word; focus on cell 0 |
| `Session.Game.Focus` | index.js:63 | focus moves to an input only when it is enabled |
| `Session.Game.SetGame` | index.js:44-48 | row 1, the secret is the word at the chosen index, only row 1 enabled, focus on cell 0, guess untouched |
| `Session.Game.UpdateInputPermissions` | index.js:55-64 | a cell is enabled iff it is in the current row; texts and classes unchanged; focus on the row's first cell |
| `Session.Game.ClickLetter` | index.js:84-96 | the letter goes into the first empty cell of the current row and nowhere else; with no empty cell nothing changes; focus moves to the next cell when it exists and is enabled |
| `Session.Game.CheckIsWord` | index.js:116-126 | guess becomes the current row's text; the result is true iff it is in the word list |
| `Session.Game.ClearInvalidWord` | index.js:128-135 | the current row's texts are emptied; all other cells, and all flags and classes, are unchanged; focus on the row's first cell (enabled, as `Valid()` guarantees) |
| `Session.Game.UpdateBoxColor` | index.js:160-170 | exactly the given cell of the current row gains the mark |
| `Session.Game.UpdateKeyColor` | index.js:172-182 | exactly the last key labelled with the letter gains the mark |
| `Session.Game.CompareGuess` | index.js:141-157 | the current row's cells gain the guess's marks position by position; keys gain their letters' marks; nothing is removed |
| `Session.Game.ChangeRow` | index.js:188-191 | the row advances by one, only it is enabled, focus on its first cell |
| `Session.Game.RecordOf` | index.js:200-207 | the posted record has 1 to 6 guesses |
| `Session.Game.SubmitGuess` | index.js:98-114 | guess is the current row's text; the outcome is Decide's; a row spelling the secret always wins; an unlisted row is cleared with row and keys unchanged and focus on the row's first cell; a listed row is scored; a miss below row 6 opens the next row; a win or a miss at row 6 ends the game without moving the row, with the posted record matching the outcome |
| `Session.Game.ClearGameBoard` | index.js:272-277 | every cell is emptied and loses its feedback classes; flags unchanged |
| `Session.Game.ClearKey` | index.js:279-283 | every key loses its feedback classes |
| `Session.Game.StartNewGame` | index.js:264-270 | board wiped, keys cleared, row 1 with the new secret, only row 1 enabled, focus on cell 0 |

## Left out

- Network I/O: fetching the word list, posting a game record and fetching the records are not modelled. The word list is a constructor argument, the record list is an argument of `UpdateStats`, and `RecordOf` is the body that would be posted. The posted body names its count `guesses` (index.js:203), while `updateStats` reads `numGuesses` (index.js:233); the model assumes the record service stores one as the other.
- Timers: the delayed `endGame` after a win or the sixth row, the delayed `startNewGame` and the delayed clearing of the error message are not modelled. The outcome `GameOver` stands for "end of game scheduled". As on the page during that delay, the model still accepts submissions after `GameOver`.
- The error message text, the game-over text (`changeGameOverText`) and all panel switching (`viewRules`, `viewGame`, `viewStats`, `viewGameOverMessage`) are display only.
- Keyboard wiring: the event listeners, `moveToNextInput`, `moveToLastInput` and typing directly into an input. Cell texts are arbitrary strings, so any typed content is covered by the other handlers.
- `console.log` error handling.
- Session.Game.SetGame: takes the secret's index as an argument with `index < |words|`. The source draws `floor(random * 2500)` whatever the list's length, so a list shorter than 2500 can yield an undefined secret, and words past 2500 are never chosen.
- Stats.RoundedRatio: exact rational rounding. The source computes `Math.round` on floating-point values, including `(won / total) * 100`, whose binary rounding can differ from the exact value at a half.
- Session.Game.UpdateKeyColor: requires a key labelled with the letter. The source throws a TypeError otherwise. The constructor's `WordsOnKeys` (every listed word has five letters, each on a key) guarantees this for every listed guess, which is the only input `compareGuess` gets.
- Session.Game.UpdateBoxColor: requires a position below 5. The source throws on a larger one, and listed guesses have five letters.
- Session.Game.CompareGuess: requires the guess to be listed, and Session.Game.ChangeRow requires a row below 6. These are the conditions under which `submitGuess`, their only caller, calls them.
- Session.Game.ClickLetter: when the filled cell is the board's last, the source throws after writing the letter, while focusing the non-existent next input. The model writes the letter and leaves the focus; the thrown exception itself is not modelled.
- Session.Game.constructor: requires the word list to satisfy `WordsOnKeys`. This is the word service's contract (five-letter lowercase words) together with the letter key offering every letter.
