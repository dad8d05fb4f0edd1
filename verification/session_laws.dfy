/** Properties of the session that span several steps: the invariant `Valid`
    holds in every state the game reaches, a finished game ignores all input,
    and a finished game was either won on its last row or ran out of rows. */
module SessionLaws {
  import opened Optional
  import opened Rules
  import opened Letters
  import opened Scoring
  import opened Ui
  import opened Session

  /** Typing a letter keeps the invariant. */
  lemma AddLetterKeepsValid(g: Game, key: string)
    requires Valid(g) && !g.over && g.col < WordLength && IsLetterKey(key)
    ensures Valid(AddLetter(g, UpperString(key)))
  {
  }

  /** Erasing keeps the invariant. */
  lemma DeleteLetterKeepsValid(g: Game)
    requires Valid(g) && !g.over
    ensures Valid(DeleteLetter(g))
  {
  }

  /** Submitting keeps the invariant: the submitted row becomes a scored row
      above the cursor, or the final row of a finished game. */
  lemma SubmitKeepsValid(g: Game)
    requires Valid(g) && !g.over
    ensures Valid(Submit(g))
  {
    if g.col == WordLength {
      var r := Submit(g);
      var guess := CurrentGuess(g);
      var result := Evaluate(guess, g.target);
      forall row | 0 <= row < MaxAttempts && row != g.row
        ensures r.board[row] == g.board[row]
      {
        forall c | 0 <= c < WordLength ensures r.board[row][c] == g.board[row][c] { }
      }
      assert Filled(r.board[g.row]);
      forall c | 0 <= c < WordLength ensures r.board[g.row][c].text == g.board[g.row][c].text { }
      assert RowText(r.board[g.row]) == RowText(g.board[g.row]);
      assert RowWord(r.board[g.row]) == guess;
      assert Scored(r.board[g.row], g.target);
    }
  }

  /** Every key press keeps the invariant. */
  lemma StepKeepsValid(g: Game, key: string)
    requires Valid(g)
    ensures Valid(Step(g, key))
  {
    if !g.over {
      if IsEnterKey(key) {
        SubmitKeepsValid(g);
      } else if IsEraseKey(key) {
        DeleteLetterKeepsValid(g);
      } else if g.col < WordLength && IsLetterKey(key) {
        AddLetterKeepsValid(g, key);
      }
    }
  }

  /** The invariant holds after any sequence of key presses. */
  lemma {:induction false} RunKeepsValid(g: Game, keys: seq<string>)
    requires Valid(g)
    ensures Valid(Run(g, keys))
    decreases |keys|
  {
    if |keys| > 0 {
      StepKeepsValid(g, keys[0]);
      RunKeepsValid(Step(g, keys[0]), keys[1..]);
    }
  }

  /** Every state reachable from a new game satisfies the invariant; in
      particular the cursor stays on the board. */
  lemma Reachable(g0: Game, word: string, keys: seq<string>)
    ensures var g := Run(NewGame(g0, word), keys);
      Valid(g) && g.row < MaxAttempts && g.col <= WordLength && !g.processing
  {
    RunKeepsValid(NewGame(g0, word), keys);
  }

  /** Once the game is over, no sequence of key presses changes anything. */
  lemma {:induction false} OverIgnoresInput(g: Game, keys: seq<string>)
    requires WellFormed(g) && g.over
    ensures Run(g, keys) == g
    decreases |keys|
  {
    if |keys| > 0 {
      OverIgnoresInput(Step(g, keys[0]), keys[1..]);
    }
  }

  /** The row cursor never moves back. */
  lemma {:induction false} RowNeverDecreases(g: Game, keys: seq<string>)
    requires WellFormed(g)
    ensures g.row <= Run(g, keys).row
    decreases |keys|
  {
    if |keys| > 0 {
      RowNeverDecreases(Step(g, keys[0]), keys[1..]);
    }
  }

  /** How a game with a five-letter word ends: it is won exactly when the last
      submitted row is coloured all-correct, and a game that ends without being
      won ended on the last row. */
  lemma Outcome(g: Game)
    requires Valid(g) && g.over && |g.target| == WordLength
    ensures var cells := g.board[g.row];
      (forall c :: 0 <= c < WordLength ==> cells[c].mark == Some(Correct)) <==> RowWord(cells) == g.target
    ensures RowWord(g.board[g.row]) != g.target ==> g.row == MaxAttempts - 1
  {
    var cells := g.board[g.row];
    AllCorrectIffMatch(RowWord(cells), g.target);
    var r := Evaluate(RowWord(cells), g.target);
    assert (forall c :: 0 <= c < WordLength ==> cells[c].mark == Some(Correct)) <==> AllCorrect(r);
  }

}
