/**
 The game logic of the word-guessing page: the letter test, the evaluation of
 a submitted guess against the target word, and the keydown handler that
 moves a cursor over a 6 x 5 grid of letter cells.

 The page's cells become a `Session` holding two 6 x 5 arrays (the letter
 shown in each cell and the class `checkGuess` gave it), the cursor
 `(row, col)` and the outcome. The handler's behaviour is specified by the
 function `Step` on `Board` values; `Session.KeyDown` is proved to follow it,
 and the properties of the game are lemmas about `Step` (wordle_properties.dfy).
 */
module WordleClone {
  import opened JsStrings

  const Rows := 6
  const Cols := 5

  datatype Option<T> = None | Some(value: T)

  /** The class a cell receives when its row is checked; `Unmarked` before that. */
  datatype Status = Unmarked | Correct | Almost | Wrong

  datatype Outcome = InProgress | Won | Lost

  /** A keydown event: the key name and the flags the handler looks at. */
  datatype KeyEvent = KeyEvent(key: string, ctrlKey: bool, altKey: bool, metaKey: bool,
                               repeat: bool, isComposing: bool)

  /** The text of the popup a key press shows, if any. */
  datatype Notice = NoNotice | Popup(text: string)

  const NotEnoughLetters := "Not enough letters"
  const WellDone := "Well done!"

  /** `isLetter`: a one-character key that the pattern `/[a-z]/i` matches. */
  function IsLetter(key: string): (r: bool)
    ensures r <==> |key| == 1 && IsAsciiLetter(key[0])
  {
    |key| == 1 && SearchLetterClass(key)
  }

  // ---------------------------------------------------------------------------
  // Guess evaluation (checkGuess)
  // ---------------------------------------------------------------------------

  /** `guess.charAt(i) == word.charAt(i)`, the test for an exact match. */
  predicate Agrees(word: string, guess: string, i: nat) {
    CharAt(guess, i) == CharAt(word, i)
  }

  /** The class checkGuess gives position `i` of the guess. */
  function Classify(word: string, guess: string, i: nat): (s: Status)
    requires i < |guess|
    ensures s == Correct <==> i < |word| && guess[i] == word[i]
    ensures s == Almost <==> !(i < |word| && guess[i] == word[i]) && guess[i] in word
    ensures s == Wrong <==> guess[i] !in word
  {
    IncludesChar(word, guess[i]);
    if Agrees(word, guess, i) then Correct
    else if Includes(word, CharAt(guess, i)) then Almost
    else Wrong
  }

  /** The classes of a whole guess, position by position. */
  function Grade(word: string, guess: string): seq<Status>
  {
    seq(|guess|, i requires 0 <= i < |guess| => Classify(word, guess, i))
  }

  /** `correct_count` after the first `n` positions. */
  function MatchCount(word: string, guess: string, n: nat): nat
    requires n <= |guess|
  {
    if n == 0 then 0
    else MatchCount(word, guess, n - 1) + (if Agrees(word, guess, n - 1) then 1 else 0)
  }

  /** The guess spells out the first five letters of the word. */
  predicate Solves(word: string, guess: string) {
    |guess| == Cols && Cols <= |word| && guess == word[..Cols]
  }

  /** The count of the first `n` positions reaches `n` exactly when all of them match. */
  lemma {:induction false} MatchCountAll(word: string, guess: string, n: nat)
    requires n <= |guess|
    ensures MatchCount(word, guess, n) <= n
    ensures MatchCount(word, guess, n) == n <==>
              forall i :: 0 <= i < n ==> i < |word| && guess[i] == word[i]
  {
    if n > 0 {
      MatchCountAll(word, guess, n - 1);
    }
  }

  /** checkGuess reports success (`correct_count == 5`) exactly when the guess solves the word. */
  lemma CheckGuessWinsIff(word: string, guess: string)
    requires |guess| <= Cols
    ensures MatchCount(word, guess, |guess|) == Cols <==> Solves(word, guess)
  {
    MatchCountAll(word, guess, |guess|);
    if MatchCount(word, guess, |guess|) == Cols {
      assert |guess| == Cols;
      assert Cols <= |word| by {
        assert Cols - 1 < |word| && guess[Cols - 1] == word[Cols - 1];
      }
      assert guess == word[..Cols];
    }
  }

  // ---------------------------------------------------------------------------
  // The board and the keydown handler, as a function on values
  // ---------------------------------------------------------------------------

  /** The text a cell shows: empty, or one letter. */
  function Text(cell: Option<char>): string {
    match cell
    case None => ""
    case Some(c) => [c]
  }

  /** The guess the handler builds by appending the text of each cell of a row. */
  function Spell(cells: seq<Option<char>>): (w: string)
    ensures (forall i :: 0 <= i < |cells| ==> cells[i].Some?) ==>
              |w| == |cells| && forall i :: 0 <= i < |cells| ==> w[i] == cells[i].value
  {
    if cells == [] then "" else Spell(cells[..|cells| - 1]) + Text(cells[|cells| - 1])
  }

  /** The whole game state: cursor, letters shown, classes given, outcome. */
  datatype Board = Board(row: nat, col: nat, letters: seq<seq<Option<char>>>,
                         marks: seq<seq<Status>>, outcome: Outcome)

  /** What one key press does: the next board and the popup it shows. */
  datatype Transition = Transition(next: Board, notice: Notice)

  /** 6 x 5 letters and classes, the cursor inside the grid, and a row to type in while playing. */
  ghost predicate Shaped(b: Board) {
    && |b.letters| == Rows && |b.marks| == Rows
    && (forall r :: 0 <= r < Rows ==> |b.letters[r]| == Cols && |b.marks[r]| == Cols)
    && b.row <= Rows && b.col <= Cols
    && (b.outcome == InProgress ==> b.row < Rows)
  }

  /** The board as the page starts: every cell empty and unmarked, the cursor at (0, 0). */
  function Initial(): (b: Board)
    ensures Shaped(b) && b.row == 0 && b.col == 0 && b.outcome == InProgress
    ensures forall r, c :: 0 <= r < Rows && 0 <= c < Cols ==>
              b.letters[r][c] == None && b.marks[r][c] == Unmarked
  {
    Board(0, 0, seq(Rows, _ => seq(Cols, _ => None)), seq(Rows, _ => seq(Cols, _ => Unmarked)),
          InProgress)
  }

  /** The grid with cell (r, c) replaced. */
  function Put<T>(grid: seq<seq<T>>, r: nat, c: nat, v: T): seq<seq<T>>
    requires r < |grid| && c < |grid[r]|
  {
    grid[r := grid[r][c := v]]
  }

  /** A modified, repeated or composing key event, which the handler returns on at once. */
  predicate Ignored(e: KeyEvent) {
    e.ctrlKey || e.altKey || e.metaKey || e.repeat || e.isComposing
  }

  /** Enter: reject an incomplete row, or check it and win, move on, or lose. */
  function Submit(b: Board, word: string): (t: Transition)
    requires Shaped(b) && b.row < Rows
    ensures Shaped(t.next)
  {
    if exists c :: 0 <= c < Cols && b.letters[b.row][c].None? then
      Transition(b, Popup(NotEnoughLetters))
    else
      var guess := Spell(b.letters[b.row]);
      var marks := b.marks[b.row := Grade(word, guess)];
      if Solves(word, guess) then
        Transition(b.(marks := marks, outcome := Won), Popup(WellDone))
      else if b.row + 1 > Rows - 1 then
        Transition(b.(marks := marks, col := 0, row := b.row + 1, outcome := Lost),
                   Popup(ToLowerAscii(word)))
      else
        Transition(b.(marks := marks, col := 0, row := b.row + 1), NoNotice)
  }

  /** The keydown handler, as a function of the board, the target word and the event. */
  function Step(b: Board, word: string, e: KeyEvent): (t: Transition)
    requires Shaped(b)
    ensures Shaped(t.next)
  {
    if b.outcome != InProgress || Ignored(e) then
      Transition(b, NoNotice)
    else if IsLetter(e.key) && b.col < Cols then
      Transition(b.(letters := Put(b.letters, b.row, b.col, Some(ToUpperChar(e.key[0]))),
                    col := b.col + 1), NoNotice)
    else if e.key == "Backspace" && b.col > 0 then
      Transition(b.(letters := Put(b.letters, b.row, b.col - 1, None), col := b.col - 1),
                 NoNotice)
    else if e.key == "Enter" then
      Submit(b, word)
    else
      Transition(b, NoNotice)
  }

  /** The board after a sequence of key events. */
  function Run(b: Board, word: string, events: seq<KeyEvent>): (b': Board)
    requires Shaped(b)
    ensures Shaped(b')
    decreases |events|
  {
    if events == [] then b else Run(Step(b, word, events[0]).next, word, events[1..])
  }

  /** A row is submitted once the cursor has left it, or when it won the game. */
  predicate Submitted(b: Board, r: nat) {
    r < b.row || (r == b.row && b.outcome == Won)
  }

  /**
   The invariant of every reachable board: the typed letters fill the rows
   above the cursor and the current row up to the cursor, each is an upper-case
   letter, each submitted row carries the grade of its letters and every other
   row is unmarked; a won game stops on a full row, a lost one below the grid.
   */
  ghost predicate Consistent(b: Board, word: string) {
    && Shaped(b)
    && (b.outcome == Won ==> b.col == Cols)
    && (b.outcome == Lost ==> b.row == Rows && b.col == 0)
    && (forall r, c :: 0 <= r < Rows && 0 <= c < Cols ==>
          (b.letters[r][c].Some? <==> r < b.row || (r == b.row && c < b.col)))
    && (forall r, c :: 0 <= r < Rows && 0 <= c < Cols && b.letters[r][c].Some? ==>
          IsUpperAscii(b.letters[r][c].value))
    && (forall r :: 0 <= r < Rows && Submitted(b, r) ==>
          b.marks[r] == Grade(word, Spell(b.letters[r])))
    && (forall r, c :: 0 <= r < Rows && 0 <= c < Cols && !Submitted(b, r) ==>
          b.marks[r][c] == Unmarked)
  }

  // ---------------------------------------------------------------------------
  // The page state, updated in place
  // ---------------------------------------------------------------------------

  /**
   One game on the page: `grid` holds the text of each cell, `status` the class
   checkGuess gave it, `row`/`col` the cursor the handler closes over, and
   `outcome` stands for whether the handler is still attached. The ghost
   fields `letters` and `marks` mirror the two arrays as sequences.
   */
  class Session {
    const word: string
    const grid: array2<Option<char>>
    const status: array2<Status>
    var row: nat
    var col: nat
    var outcome: Outcome
    ghost var letters: seq<seq<Option<char>>>
    ghost var marks: seq<seq<Status>>

    ghost function State(): Board
      reads this
    {
      Board(row, col, letters, marks, outcome)
    }

    /** The arrays are 6 x 5 and agree with their ghost mirrors. */
    ghost predicate Mirrors()
      reads this, grid, status
    {
      && Shaped(State())
      && grid.Length0 == Rows && grid.Length1 == Cols
      && status.Length0 == Rows && status.Length1 == Cols
      && (forall r, c :: 0 <= r < Rows && 0 <= c < Cols ==>
            grid[r, c] == letters[r][c] && status[r, c] == marks[r][c])
    }

    ghost predicate Valid()
      reads this, grid, status
    {
      Mirrors() && Consistent(State(), word)
    }

    /** The boxes are generated empty and the handler is attached for `word`. */
    constructor (word: string)
      ensures Valid() && this.word == word && State() == Initial()
      ensures fresh(grid) && fresh(status)
    {
      this.word := word;
      grid := new Option<char>[Rows, Cols]((_, _) => None);
      status := new Status[Rows, Cols]((_, _) => Unmarked);
      row, col, outcome := 0, 0, InProgress;
      letters := Initial().letters;
      marks := Initial().marks;
    }

    /**
     checkGuess: classify each position of `guess` into the cells of row `r`,
     counting the exact matches, and report whether all five matched.
     */
    method CheckGuess(r: nat, guess: string) returns (won: bool)
      requires Mirrors() && r < Rows && |guess| <= Cols
      modifies this`marks, status
      ensures Mirrors()
      ensures marks == old(marks)[r := Grade(word, guess) + old(marks)[r][|guess|..]]
      ensures won <==> Solves(word, guess)
    {
      var correctCount := 0;
      for i := 0 to |guess|
        modifies status
        invariant correctCount == MatchCount(word, guess, i)
        invariant forall k, c :: 0 <= k < Rows && 0 <= c < Cols ==>
                    status[k, c] == if k == r && c < i then Classify(word, guess, c) else old(status[k, c])
      {
        var mark;
        if CharAt(guess, i) == CharAt(word, i) {
          mark := Correct;
          correctCount := correctCount + 1;
        } else if Includes(word, CharAt(guess, i)) {
          mark := Almost;
        } else {
          mark := Wrong;
        }
        assert mark == Classify(word, guess, i);
        status[r, i] := mark;
      }
      marks := marks[r := Grade(word, guess) + marks[r][|guess|..]];
      CheckGuessWinsIff(word, guess);
      won := correctCount == Cols;
    }

    /** A letter key with room in the row: write `c` into the active cell and advance. */
    method TypeLetter(c: char)
      requires Mirrors() && outcome == InProgress && col < Cols
      modifies this`letters, this`col, grid
      ensures Mirrors()
      ensures State() == old(State()).(letters := Put(old(letters), row, old(col), Some(c)),
                                       col := old(col) + 1)
    {
      grid[row, col] := Some(c);
      letters := Put(letters, row, col, Some(c));
      col := col + 1;
    }

    /** Backspace with a letter in the row: step back and clear that cell. */
    method EraseLetter()
      requires Mirrors() && outcome == InProgress && col > 0
      modifies this`letters, this`col, grid
      ensures Mirrors()
      ensures State() == old(State()).(letters := Put(old(letters), row, old(col) - 1, None),
                                       col := old(col) - 1)
    {
      col := col - 1;
      grid[row, col] := None;
      letters := Put(letters, row, col, None);
    }

    /**
     Enter: collect the row's letters into a guess, stopping with a notice at
     the first empty cell; otherwise check the guess and win, move to the next
     row, or lose after the last one.
     */
    method SubmitRow() returns (notice: Notice)
      requires Mirrors() && outcome == InProgress
      modifies this`marks, this`row, this`col, this`outcome, status
      ensures Mirrors()
      ensures Transition(State(), notice) == Submit(old(State()), word)
    {
      var guesses := "";
      for i := 0 to Cols
        invariant forall k :: 0 <= k < i ==> letters[row][k].Some?
        invariant guesses == Spell(letters[row][..i])
      {
        var cell := grid[row, i];
        if cell.Some? {
          guesses := guesses + [cell.value];
        } else {
          notice := Popup(NotEnoughLetters);
          return;
        }
        assert letters[row][..i + 1][..i] == letters[row][..i];
      }
      assert letters[row][..Cols] == letters[row];
      var won := CheckGuess(row, guesses);
      assert marks[row] == Grade(word, guesses);
      if won {
        notice := Popup(WellDone);
        outcome := Won;
        return;
      }
      col := 0;
      row := row + 1;
      notice := NoNotice;
      if row > Rows - 1 {
        notice := Popup(ToLowerAscii(word));
        outcome := Lost;
      }
    }

    /** The keydown handler. */
    method KeyDown(e: KeyEvent) returns (notice: Notice)
      requires Valid()
      modifies this, grid, status
      ensures Valid()
      ensures Transition(State(), notice) == Step(old(State()), word, e)
    {
      StepPreservesConsistent(State(), word, e);
      notice := NoNotice;
      if outcome != InProgress {
        return;
      }
      if e.ctrlKey || e.altKey || e.metaKey || e.repeat || e.isComposing {
        return;
      }
      if IsLetter(e.key) && col < Cols {
        TypeLetter(ToUpperChar(e.key[0]));
      } else if e.key == "Backspace" && col > 0 {
        EraseLetter();
      } else if e.key == "Enter" {
        notice := SubmitRow();
      }
    }
  }

  // ---------------------------------------------------------------------------
  // The invariant is kept by every key press
  // ---------------------------------------------------------------------------

  /** Typing or erasing a letter in the current row keeps the invariant. */
  lemma EditPreservesConsistent(b: Board, word: string, c: nat, v: Option<char>, col': nat)
    requires Consistent(b, word) && b.outcome == InProgress
    requires (v.Some? && c == b.col && col' == b.col + 1 && col' <= Cols && IsUpperAscii(v.value))
          || (v.None? && col' == b.col - 1 && c == col' && b.col > 0)
    ensures Consistent(b.(letters := Put(b.letters, b.row, c, v), col := col'), word)
  {
    var b' := b.(letters := Put(b.letters, b.row, c, v), col := col');
    forall r | 0 <= r < Rows && Submitted(b', r)
      ensures b'.marks[r] == Grade(word, Spell(b'.letters[r]))
    {
      assert r != b.row;
      assert b'.letters[r] == b.letters[r];
    }
  }

  /** Submitting a row keeps the invariant, whichever of the four ways it goes. */
  lemma SubmitPreservesConsistent(b: Board, word: string)
    requires Consistent(b, word) && b.outcome == InProgress
    ensures Consistent(Submit(b, word).next, word)
  {
    if !exists c :: 0 <= c < Cols && b.letters[b.row][c].None? {
      var guess := Spell(b.letters[b.row]);
      assert b.col == Cols;
      assert |Grade(word, guess)| == Cols;
      var b' := Submit(b, word).next;
      assert b'.letters == b.letters;
      forall r | 0 <= r < Rows && Submitted(b', r)
        ensures b'.marks[r] == Grade(word, Spell(b'.letters[r]))
      {
        if r != b.row {
          assert Submitted(b, r);
        }
      }
    }
  }

  /** Every key press keeps the invariant of reachable boards. */
  lemma StepPreservesConsistent(b: Board, word: string, e: KeyEvent)
    requires Consistent(b, word)
    ensures Consistent(Step(b, word, e).next, word)
  {
    if b.outcome == InProgress && !Ignored(e) {
      if IsLetter(e.key) && b.col < Cols {
        EditPreservesConsistent(b, word, b.col, Some(ToUpperChar(e.key[0])), b.col + 1);
      } else if e.key == "Backspace" && b.col > 0 {
        EditPreservesConsistent(b, word, b.col - 1, None, b.col - 1);
      } else if e.key == "Enter" {
        SubmitPreservesConsistent(b, word);
      }
    }
  }
}
