# Word-guessing game: model of the game logic

This project models the client-side logic of a Wordle-style page
(`assets/projects/js/wordle_clone.js`). The player types letters into a 6 x 5
grid of boxes. Enter submits a full row. `checkGuess` gives each box of the row
the class `correct`, `almost` or `wrong` and reports whether all five letters
matched. The game is won on a full match and lost after the sixth row misses;
either way the keydown listener then removes itself.

The model has four modules:

- `JsStrings` (js_strings.dfy) holds the JavaScript string operations the
  script uses: `charAt`, `includes`, ASCII `toUpperCase`/`toLowerCase`, and the
  case-insensitive pattern `/[a-z]/i`.
- `BoxIds` (box_ids.dfy) models `boxID(row, col)`. It proves that distinct
  cells get distinct identifiers, so a two-dimensional array can stand for the
  boxes the script looks up by identifier.
- `WordleClone` (wordle_clone.dfy) has three parts:
  - `isLetter` and guess evaluation: `Classify`, `Grade`, the running match
    count `MatchCount` and what success means (`Solves`).
  - The specification of the keydown handler: `Step` on `Board` values, `Run`
    over a sequence of keys, and the invariant `Consistent` of every reachable
    board.
  - The `Session` class. It holds the page state: `grid` (each box's text),
    `status` (each box's class), the cursor `row`/`col` that the listener
    closes over, and `outcome`. `KeyDown` is proved to follow `Step`.
    `CheckGuess` is the imperative `checkGuess` loop.
- `WordleProperties` (wordle_properties.dfy) holds lemmas about the
  specification. They cover:
  - each kind of key event;
  - incomplete and full rows;
  - finished games being frozen;
  - submitted rows never changing;
  - the cursor staying inside the grid;
  - what case-sensitive comparison implies;
  - the worked scenarios.

The target word is a parameter of the session; it is whatever string the server
returned. Removing the listener with `arguments.callee` is modelled as the
`outcome` field: once it is `Won` or `Lost`, the handler does nothing.

Case sensitivity is kept as written. The boxes hold upper-cased letters, while
the word is compared exactly as fetched. So against a word with no upper-case
letter, every submitted box is `wrong` and the game can never be won
(`SubmittedCellsWrongForLowerCaseWord`, `RunNeverWinsLowerCaseWord`).
`src/main.rs:85` names the word list the server draws from. Whether that list
is upper or lower case is not part of this model.

Three points about the code:

- The word is not assumed to have five characters. `checkGuess` succeeds when
  the guess equals the word's first five characters and the word has at least
  five (`Solves`). This means "the guess equals the word" only for a
  five-character word (`SolvesFiveLetterWord`, `LongerWordWonByPrefix`).
- Enter does not count letters. It scans the row for the first empty box. Under
  the invariant, this rejects exactly the rows with the cursor before column 5
  (`IncompleteRowRejected`, `FullRowSubmitted`).
- The outcome is stored as a field rather than derived from the cursor. After a
  win, the cursor stays on the winning row at column 5. After a loss, it is at
  row 6, column 0.

## Model

| member | source | states |
|---|---|---|
| `JsStrings.ToUpperChar` | assets/projects/js/wordle_clone.js:137-138 | upper-casing an ASCII letter gives an upper-case letter, keeps letters letters and leaves upper-case letters unchanged |
| `JsStrings.IncludesChar` | assets/projects/js/wordle_clone.js:102 | `word.includes(c)` for a one-character string holds exactly when `c` occurs in the word |
| `JsStrings.ToLowerAscii` | assets/projects/js/wordle_clone.js:166 | lower-casing the word for the loss notice keeps its length, leaves no upper-case ASCII letter, and changes each character only in case |
| `BoxIds.Decimal` | assets/projects/js/wordle_clone.js:11 | the number-to-string conversion inside `boxID` yields a non-empty string of decimal digits |
| `BoxIds.DecimalRoundTrip` | assets/projects/js/wordle_clone.js:11 | reading the decimal rendering back gives the number |
| `BoxIds.BoxIdInjective` | assets/projects/js/wordle_clone.js:10-12 | `boxID(r1, c1) == boxID(r2, c2)` exactly when the rows and the columns are equal |
| `WordleClone.IsLetter` | assets/projects/js/wordle_clone.js:1-3 | a key is a letter iff it has length 1 and its character is in a-z or A-Z |
| `WordleClone.Classify` | assets/projects/js/wordle_clone.js:99-106 | a position is `Correct` iff guess and word have the same character there; `Almost` iff not, but the word contains the character anywhere; `Wrong` iff the word does not contain it |
| `WordleClone.MatchCountAll` | assets/projects/js/wordle_clone.js:95-101 | the count of exact matches over the first n positions is at most n, and equals n iff every one of them matches |
| `WordleClone.CheckGuessWinsIff` | assets/projects/js/wordle_clone.js:108 | `correct_count == 5` iff the guess has five characters equal to the first five of the word |
| `WordleClone.Spell` | assets/projects/js/wordle_clone.js:142-147 | concatenating the texts of a row whose boxes are all filled gives a string of the same length holding each box's letter in order |
| `WordleClone.Initial` | assets/projects/js/wordle_clone.js:16-26 | the game starts with all 30 boxes empty and unmarked, the cursor at (0, 0), in progress |
| `WordleClone.Submit` | assets/projects/js/wordle_clone.js:141-172 | the Enter branch keeps the board 6 x 5 with the cursor inside it |
| `WordleClone.Step` | assets/projects/js/wordle_clone.js:127-175 | every key press keeps the board 6 x 5, the column within 0..5, the row within 0..6, and the row below 6 while in progress |
| `WordleClone.Run` | assets/projects/js/wordle_clone.js:127-175 | any sequence of key presses keeps the same shape and bounds |
| `WordleClone.Session.constructor` | assets/projects/js/wordle_clone.js:124-126 | a new session has the given word, fresh 6 x 5 arrays and the initial board, and satisfies the invariant |
| `WordleClone.Session.CheckGuess` | assets/projects/js/wordle_clone.js:94-109 | row r's classes become the grade of the guess, no other box changes, and the result is true iff the guess solves the word |
| `WordleClone.Session.TypeLetter` | assets/projects/js/wordle_clone.js:136-138 | the letter is written into box (row, col), `col` increases by one, nothing else changes |
| `WordleClone.Session.EraseLetter` | assets/projects/js/wordle_clone.js:139-140 | `col` decreases by one and that box is cleared, nothing else changes |
| `WordleClone.Session.SubmitRow` | assets/projects/js/wordle_clone.js:141-173 | the state after Enter, and the notice shown, are those of `Submit` |
| `WordleClone.Session.KeyDown` | assets/projects/js/wordle_clone.js:127-175 | the handler's new state and notice are exactly `Step` of the old state, and the invariant is kept |
| `WordleClone.EditPreservesConsistent` | assets/projects/js/wordle_clone.js:136-140 | typing or erasing a letter keeps the invariant of reachable boards |
| `WordleClone.SubmitPreservesConsistent` | assets/projects/js/wordle_clone.js:141-172 | every outcome of Enter keeps the invariant, and a submitted row carries the grade of its letters |
| `WordleClone.StepPreservesConsistent` | assets/projects/js/wordle_clone.js:127-175 | every key press keeps the invariant |
| `WordleProperties.MatchCountCountsAgreements` | assets/projects/js/wordle_clone.js:95-101 | `correct_count` equals the number of positions where guess and word agree |
| `WordleProperties.GradeClassifiesEveryPosition` | assets/projects/js/wordle_clone.js:96-107 | each position of a checked guess gets exactly one of `correct`, `almost`, `wrong` |
| `WordleProperties.SolvesFiveLetterWord` | assets/projects/js/wordle_clone.js:108 | against a five-character word, checkGuess succeeds iff the guess equals the word |
| `WordleProperties.RepeatedLetterMarkedTwice` | assets/projects/js/wordle_clone.js:102-103 | letters are not consumed: every E of EERIE that is not in place is `almost` against CRANE |
| `WordleProperties.LongerWordWonByPrefix` | assets/projects/js/wordle_clone.js:99 | a six-character word is won by its first five characters |
| `WordleProperties.IgnoredEventChangesNothing` | assets/projects/js/wordle_clone.js:128-135 | an event with ctrl, alt, meta, repeat or composing set changes nothing and shows nothing |
| `WordleProperties.FinishedGameIgnoresKeys` | assets/projects/js/wordle_clone.js:156-171 | once won or lost, a key press changes nothing |
| `WordleProperties.LetterKey` | assets/projects/js/wordle_clone.js:136-138 | with room in the row, a letter key writes its upper case into (row, col), increments `col` and changes no other box; with the row full it changes nothing |
| `WordleProperties.BackspaceKey` | assets/projects/js/wordle_clone.js:139-140 | with `col > 0`, Backspace decrements `col` and clears exactly box (row, new col); at column 0 it changes nothing |
| `WordleProperties.IncompleteRowRejected` | assets/projects/js/wordle_clone.js:141-152 | Enter with an empty box in the row shows "Not enough letters" and leaves row, col and every box unchanged |
| `WordleProperties.FullRowSubmitted` | assets/projects/js/wordle_clone.js:154-172 | Enter on a full row grades it; a solving guess wins with the cursor kept, otherwise col becomes 0 and row increases, and past the sixth row the game is lost with the word shown in lower case |
| `WordleProperties.SubmittedRowsFrozen` | assets/projects/js/wordle_clone.js:136-172 | no key press changes the letters or classes of a submitted row |
| `WordleProperties.RunConcat` | assets/projects/js/wordle_clone.js:127 | handling two key sequences in turn is handling their concatenation |
| `WordleProperties.RunPreservesConsistent` | assets/projects/js/wordle_clone.js:127-175 | through any key sequence the invariant holds, `col` stays within 0..5 and `row` never exceeds 6 |
| `WordleProperties.ReachableIsConsistent` | assets/projects/js/wordle_clone.js:124-175 | every board reachable from the start satisfies the invariant |
| `WordleProperties.FinishedGameStaysFinished` | assets/projects/js/wordle_clone.js:156-171 | after a win or a loss, no key sequence changes anything |
| `WordleProperties.SubmittedRowsStayFrozen` | assets/projects/js/wordle_clone.js:154-172 | a submitted row keeps its letters and classes through any later key sequence |
| `WordleProperties.SubmittedCellsWrongForLowerCaseWord` | assets/projects/js/wordle_clone.js:99-106 | against a word with no upper-case letter, every submitted box is `wrong`, because the boxes hold upper-case letters |
| `WordleProperties.StepNeverWinsLowerCaseWord` | assets/projects/js/wordle_clone.js:137-138 | against such a word, no key press wins |
| `WordleProperties.RunNeverWinsLowerCaseWord` | assets/projects/js/wordle_clone.js:154-162 | against such a word, no key sequence wins |
| `WordleProperties.ScenarioWinFirstRow` | assets/projects/js/wordle_clone.js:136-162 | typing c-R-a-N-e and Enter against CRANE wins on the first row with five `correct` boxes |
| `WordleProperties.ScenarioPlate` | assets/projects/js/wordle_clone.js:141-164 | PLATE against CRANE grades wrong, wrong, correct, wrong, correct, and moves to row 1, column 0, still in progress |
| `WordleProperties.ScenarioNotEnoughLetters` | assets/projects/js/wordle_clone.js:141-152 | after C-R-A, Enter shows "Not enough letters" and leaves the cursor at (0, 3) |
| `WordleProperties.ScenarioEdges` | assets/projects/js/wordle_clone.js:136-140 | a sixth letter in a full row and a Backspace at column 0 change nothing |
| `WordleProperties.ScenarioLostAfterSixthMiss` | assets/projects/js/wordle_clone.js:163-171 | a miss on the sixth row loses and reveals the word in lower case; later keys change nothing |

## Left out

- `src/main.rs` is not part of this model. It is the HTTP server: static files, a directory listing, and a random line of a word file, which is I/O and randomness. The word it returns is a parameter of `Session`.
- `chooseGuess`, the `fetch` call and the start-up `.then` block (wordle_clone.js:114-117, 176-188) are network and promise handling. The fetch-failure notice is left out with them.
- `generateBoxes`, `generateKeyboard` and `generateKeyboardRow` (wordle_clone.js:16-85) build the page. The two 6 x 5 arrays stand for the boxes. A virtual key click dispatches a plain keydown event, which is a `KeyEvent` with every flag false.
- `setPopup` and the 2-second `setTimeout` that hides the notice (wordle_clone.js:118-123, 150) are left out as page effects. The text a key press would show is returned as a `Notice`.
- The CSS transition set on each box (wordle_clone.js:97-98) is left out, as is the box's base class `guess-box`. A box's class is one `Status` value. `classList.add` could accumulate classes, but each row is checked at most once.
- `arguments.callee` listener removal is modelled as the `outcome` guard.
- JavaScript strings are UTF-16 code units; the model uses Dafny characters. The model's `toUpperCase`/`toLowerCase` change only ASCII letters. This is exact for typed keys, since only ASCII letters pass `isLetter`. For the revealed word, non-ASCII letters are not lower-cased.
- `WordleClone.Session.CheckGuess`: requires a guess of at most five characters. For a longer guess, the source would look up a box that does not exist and fail. Its only caller passes five letters.
- `WordleClone.Session.CheckGuess`: reads the target word from the session instead of taking it as a parameter. Its only caller passes the session's word.
- `WordleClone.Session.KeyDown`: is split into `TypeLetter`, `EraseLetter` and `SubmitRow`, one per branch of the source handler. The Enter branch's collecting loop is in `SubmitRow`.
