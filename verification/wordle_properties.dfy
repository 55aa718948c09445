/**
 Properties of the keydown handler and of guess evaluation, stated over the
 specification `Step`/`Run` that `Session.KeyDown` is proved to follow.
 */
module WordleProperties {
  import opened JsStrings
  import opened WordleClone

  function Key(k: string): KeyEvent {
    KeyEvent(k, false, false, false, false, false)
  }

  function Keys(ks: seq<string>): seq<KeyEvent> {
    seq(|ks|, i requires 0 <= i < |ks| => Key(ks[i]))
  }

  // ---------------------------------------------------------------------------
  // Guess evaluation
  // ---------------------------------------------------------------------------

  /** The positions of the first `n` where guess and word agree. */
  ghost function AgreeingPositions(word: string, guess: string, n: nat): set<nat>
    requires n <= |guess|
  {
    set i: nat | i < n && i < |word| && guess[i] == word[i]
  }

  /** `correct_count` is the number of positions where guess and word agree. */
  lemma {:induction false} MatchCountCountsAgreements(word: string, guess: string, n: nat)
    requires n <= |guess|
    ensures MatchCount(word, guess, n) == |AgreeingPositions(word, guess, n)|
  {
    if n > 0 {
      MatchCountCountsAgreements(word, guess, n - 1);
      var before := AgreeingPositions(word, guess, n - 1);
      if Agrees(word, guess, n - 1) {
        assert AgreeingPositions(word, guess, n) == before + {n - 1};
        assert n - 1 !in before;
      } else {
        assert AgreeingPositions(word, guess, n) == before;
      }
    }
  }

  /** Every position of a graded guess gets exactly one of the three classes. */
  lemma GradeClassifiesEveryPosition(word: string, guess: string, i: nat)
    requires i < |guess|
    ensures |Grade(word, guess)| == |guess|
    ensures Grade(word, guess)[i] in {Correct, Almost, Wrong}
    ensures Grade(word, guess)[i] == Correct <==> i < |word| && guess[i] == word[i]
    ensures Grade(word, guess)[i] == Almost <==>
              !(i < |word| && guess[i] == word[i]) && guess[i] in word
  {
  }

  /** Against a five-character word, checkGuess succeeds exactly for that word. */
  lemma {:induction false} SolvesFiveLetterWord(word: string, guess: string)
    requires |word| == Cols
    ensures Solves(word, guess) <==> guess == word
  {
    assert word[..Cols] == word;
  }

  /** Repeated letters are not consumed: each copy of a letter the word holds once is `Almost`. */
  lemma RepeatedLetterMarkedTwice()
    ensures Grade("CRANE", "EERIE") == [Almost, Almost, Almost, Wrong, Correct]
  {
    assert "CRANE"[4] == 'E';
  }

  /** The word is used as fetched: a longer line is won by its first five characters. */
  lemma LongerWordWonByPrefix()
    ensures Solves("CRANES", "CRANE")
  {
  }

  // ---------------------------------------------------------------------------
  // Single key presses
  // ---------------------------------------------------------------------------

  /** A modified, repeated or composing event changes nothing. */
  lemma IgnoredEventChangesNothing(b: Board, word: string, e: KeyEvent)
    requires Shaped(b) && Ignored(e)
    ensures Step(b, word, e) == Transition(b, NoNotice)
  {
  }

  /** Once the game is won or lost, no key changes anything. */
  lemma FinishedGameIgnoresKeys(b: Board, word: string, e: KeyEvent)
    requires Shaped(b) && b.outcome != InProgress
    ensures Step(b, word, e) == Transition(b, NoNotice)
  {
  }

  /**
   A letter key writes its upper case into the active cell and advances the
   column, changing no other cell; with the row full it changes nothing.
   */
  lemma LetterKey(b: Board, word: string, e: KeyEvent)
    requires Shaped(b) && b.outcome == InProgress && !Ignored(e) && IsLetter(e.key)
    ensures var t := Step(b, word, e);
      && t.notice == NoNotice
      && (b.col == Cols ==> t.next == b)
      && (b.col < Cols ==>
            && t.next.row == b.row && t.next.col == b.col + 1
            && t.next.marks == b.marks && t.next.outcome == b.outcome
            && t.next.letters[b.row][b.col] == Some(ToUpperChar(e.key[0]))
            && IsUpperAscii(t.next.letters[b.row][b.col].value)
            && forall r, c :: 0 <= r < Rows && 0 <= c < Cols && (r, c) != (b.row, b.col) ==>
                 t.next.letters[r][c] == b.letters[r][c])
  {
  }

  /**
   Backspace steps the column back and clears exactly that cell; at the start
   of a row it changes nothing.
   */
  lemma BackspaceKey(b: Board, word: string, e: KeyEvent)
    requires Shaped(b) && b.outcome == InProgress && !Ignored(e) && e.key == "Backspace"
    ensures var t := Step(b, word, e);
      && t.notice == NoNotice
      && (b.col == 0 ==> t.next == b)
      && (b.col > 0 ==>
            && t.next.row == b.row && t.next.col == b.col - 1
            && t.next.marks == b.marks && t.next.outcome == b.outcome
            && t.next.letters[b.row][b.col - 1] == None
            && forall r, c :: 0 <= r < Rows && 0 <= c < Cols && (r, c) != (b.row, b.col - 1) ==>
                 t.next.letters[r][c] == b.letters[r][c])
  {
  }

  /** Enter on a row that is not full shows "Not enough letters" and changes nothing. */
  lemma IncompleteRowRejected(b: Board, word: string, e: KeyEvent)
    requires Consistent(b, word) && b.outcome == InProgress && !Ignored(e) && e.key == "Enter"
    requires b.col < Cols
    ensures Step(b, word, e) == Transition(b, Popup(NotEnoughLetters))
  {
    assert b.letters[b.row][b.col].None?;
  }

  /**
   Enter on a full row grades it and then wins (cursor kept), or moves to the
   start of the next row, losing when that was the sixth row.
   */
  lemma FullRowSubmitted(b: Board, word: string, e: KeyEvent)
    requires Consistent(b, word) && b.outcome == InProgress && !Ignored(e) && e.key == "Enter"
    requires b.col == Cols
    ensures var t := Step(b, word, e);
      var guess := Spell(b.letters[b.row]);
      && |guess| == Cols
      && (forall c :: 0 <= c < Cols ==> guess[c] == b.letters[b.row][c].value)
      && t.next.letters == b.letters
      && t.next.marks == b.marks[b.row := Grade(word, guess)]
      && (Solves(word, guess) ==>
            t.next.outcome == Won && t.next.row == b.row && t.next.col == Cols
            && t.notice == Popup(WellDone))
      && (!Solves(word, guess) ==>
            t.next.row == b.row + 1 && t.next.col == 0
            && (b.row + 1 < Rows ==> t.next.outcome == InProgress && t.notice == NoNotice)
            && (b.row + 1 == Rows ==>
                  t.next.outcome == Lost && t.notice == Popup(ToLowerAscii(word))))
  {
    assert !exists c :: 0 <= c < Cols && b.letters[b.row][c].None?;
  }

  /** A key press never touches the letters or classes of a submitted row. */
  lemma SubmittedRowsFrozen(b: Board, word: string, e: KeyEvent, r: nat)
    requires Consistent(b, word) && r < Rows && Submitted(b, r)
    ensures var next := Step(b, word, e).next;
      Submitted(next, r) && next.letters[r] == b.letters[r] && next.marks[r] == b.marks[r]
  {
  }

  // ---------------------------------------------------------------------------
  // Whole games
  // ---------------------------------------------------------------------------

  /** The cursor stays inside the grid and the invariant holds through any keys. */
  lemma {:induction false} RunPreservesConsistent(b: Board, word: string, events: seq<KeyEvent>)
    requires Consistent(b, word)
    ensures var b' := Run(b, word, events);
      Consistent(b', word) && b'.row <= Rows && b'.col <= Cols
    decreases |events|
  {
    if events != [] {
      StepPreservesConsistent(b, word, events[0]);
      RunPreservesConsistent(Step(b, word, events[0]).next, word, events[1..]);
    }
  }

  /** Running two sequences of keys one after the other is running their concatenation. */
  lemma {:induction false} RunConcat(b: Board, word: string, xs: seq<KeyEvent>, ys: seq<KeyEvent>)
    requires Shaped(b)
    ensures Run(b, word, xs + ys) == Run(Run(b, word, xs), word, ys)
    decreases |xs|
  {
    if xs != [] {
      assert (xs + ys)[0] == xs[0] && (xs + ys)[1..] == xs[1..] + ys;
      RunConcat(Step(b, word, xs[0]).next, word, xs[1..], ys);
    } else {
      assert xs + ys == ys;
    }
  }

  /** Every game reachable from the start satisfies the invariant. */
  lemma {:induction false} ReachableIsConsistent(word: string, events: seq<KeyEvent>)
    ensures Consistent(Run(Initial(), word, events), word)
  {
    RunPreservesConsistent(Initial(), word, events);
  }

  /** A finished game is frozen: no sequence of keys changes anything. */
  lemma {:induction false} FinishedGameStaysFinished(b: Board, word: string,
                                                     events: seq<KeyEvent>)
    requires Shaped(b) && b.outcome != InProgress
    ensures Run(b, word, events) == b
    decreases |events|
  {
    if events != [] {
      FinishedGameIgnoresKeys(b, word, events[0]);
      FinishedGameStaysFinished(b, word, events[1..]);
    }
  }

  /** A submitted row keeps its letters and classes for the rest of the game. */
  lemma {:induction false} SubmittedRowsStayFrozen(b: Board, word: string,
                                                   events: seq<KeyEvent>, r: nat)
    requires Consistent(b, word) && r < Rows && Submitted(b, r)
    ensures var b' := Run(b, word, events);
      b'.letters[r] == b.letters[r] && b'.marks[r] == b.marks[r]
    decreases |events|
  {
    if events != [] {
      SubmittedRowsFrozen(b, word, events[0], r);
      StepPreservesConsistent(b, word, events[0]);
      SubmittedRowsStayFrozen(Step(b, word, events[0]).next, word, events[1..], r);
    }
  }

  // ---------------------------------------------------------------------------
  // Case-sensitive comparison
  // ---------------------------------------------------------------------------

  /** The word has no upper-case ASCII letter, as a word list in lower case gives. */
  predicate NoUpperCase(word: string) {
    forall i :: 0 <= i < |word| ==> !IsUpperAscii(word[i])
  }

  /**
   The cells hold upper-case letters and the comparison is case-sensitive, so
   against a word with no upper-case letter every submitted cell is `Wrong`.
   */
  lemma SubmittedCellsWrongForLowerCaseWord(b: Board, word: string, r: nat, c: nat)
    requires Consistent(b, word) && NoUpperCase(word)
    requires r < Rows && c < Cols && Submitted(b, r)
    ensures b.marks[r][c] == Wrong
  {
    var guess := Spell(b.letters[r]);
    assert b.letters[r][c].Some?;
    assert guess[c] == b.letters[r][c].value;
    assert IsUpperAscii(guess[c]);
    assert b.marks[r][c] == Classify(word, guess, c);
  }

  /** Such a word can never be guessed: no key press wins the game. */
  lemma StepNeverWinsLowerCaseWord(b: Board, word: string, e: KeyEvent)
    requires Consistent(b, word) && NoUpperCase(word) && b.outcome != Won
    ensures Step(b, word, e).next.outcome != Won
  {
    if b.outcome == InProgress && !Ignored(e) && e.key == "Enter" && b.col == Cols {
      var guess := Spell(b.letters[b.row]);
      assert b.letters[b.row][0].Some?;
      assert IsUpperAscii(guess[0]);
      assert !Solves(word, guess);
    }
  }

  /** ... nor any sequence of key presses. */
  lemma {:induction false} RunNeverWinsLowerCaseWord(b: Board, word: string,
                                                     events: seq<KeyEvent>)
    requires Consistent(b, word) && NoUpperCase(word) && b.outcome != Won
    ensures Run(b, word, events).outcome != Won
    decreases |events|
  {
    if events != [] {
      StepNeverWinsLowerCaseWord(b, word, events[0]);
      StepPreservesConsistent(b, word, events[0]);
      RunNeverWinsLowerCaseWord(Step(b, word, events[0]).next, word, events[1..]);
    }
  }

  // ---------------------------------------------------------------------------
  // Scenarios
  // ---------------------------------------------------------------------------

  /** Typing the word (in either case) and Enter wins on the first row. */
  lemma ScenarioWinFirstRow()
    ensures var b := Run(Initial(), "CRANE", Keys(["c", "R", "a", "N", "e", "Enter"]));
      b.outcome == Won && b.row == 0 && b.marks[0] == [Correct, Correct, Correct, Correct, Correct]
  {
    var typed := Run(Initial(), "CRANE", Keys(["c", "R", "a", "N", "e"]));
    assert typed.row == 0 && typed.col == Cols;
    assert typed.letters[0] == [Some('C'), Some('R'), Some('A'), Some('N'), Some('E')];
    assert Spell(typed.letters[0]) == "CRANE";
    assert Solves("CRANE", "CRANE");
    assert Keys(["c", "R", "a", "N", "e", "Enter"]) == Keys(["c", "R", "a", "N", "e"]) + [Key("Enter")];
    RunConcat(Initial(), "CRANE", Keys(["c", "R", "a", "N", "e"]), [Key("Enter")]);
  }

  /** PLATE against CRANE: two exact matches, the row advances, the game goes on. */
  lemma ScenarioPlate()
    ensures var b := Run(Initial(), "CRANE", Keys(["P", "L", "A", "T", "E", "Enter"]));
      b.outcome == InProgress && b.row == 1 && b.col == 0
      && b.marks[0] == [Wrong, Wrong, Correct, Wrong, Correct]
  {
    var typed := Run(Initial(), "CRANE", Keys(["P", "L", "A", "T", "E"]));
    assert typed.row == 0 && typed.col == Cols;
    assert typed.letters[0] == [Some('P'), Some('L'), Some('A'), Some('T'), Some('E')];
    assert Spell(typed.letters[0]) == "PLATE";
    assert !Solves("CRANE", "PLATE") by {
      assert "PLATE"[0] != "CRANE"[0];
    }
    assert Keys(["P", "L", "A", "T", "E", "Enter"]) == Keys(["P", "L", "A", "T", "E"]) + [Key("Enter")];
    RunConcat(Initial(), "CRANE", Keys(["P", "L", "A", "T", "E"]), [Key("Enter")]);
  }

  /** Three letters then Enter: the notice, and the cursor stays after the third letter. */
  lemma ScenarioNotEnoughLetters()
    ensures var b := Run(Initial(), "CRANE", Keys(["C", "R", "A"]));
      b.row == 0 && b.col == 3
      && Step(b, "CRANE", Key("Enter")) == Transition(b, Popup(NotEnoughLetters))
  {
  }

  /** A sixth letter and a Backspace at the start of a row do nothing. */
  lemma ScenarioEdges()
    ensures var full := Run(Initial(), "CRANE", Keys(["P", "L", "A", "T", "E"]));
      Step(full, "CRANE", Key("S")) == Transition(full, NoNotice)
      && Step(Initial(), "CRANE", Key("Backspace")) == Transition(Initial(), NoNotice)
  {
  }

  /**
   A miss on the sixth row loses: the word is shown in lower case and, the
   handler being detached, no later key changes anything.
   */
  lemma ScenarioLostAfterSixthMiss(b: Board, word: string, later: seq<KeyEvent>)
    requires Consistent(b, word) && b.outcome == InProgress
    requires b.row == Rows - 1 && b.col == Cols && !Solves(word, Spell(b.letters[b.row]))
    ensures var t := Step(b, word, Key("Enter"));
      t.next.outcome == Lost && t.notice == Popup(ToLowerAscii(word))
      && Run(t.next, word, later) == t.next
  {
    FullRowSubmitted(b, word, Key("Enter"));
    FinishedGameStaysFinished(Step(b, word, Key("Enter")).next, word, later);
  }
}
