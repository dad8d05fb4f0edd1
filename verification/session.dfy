/** `FiveLetterGame`: one game session as a state machine over key presses.

    The board cells and key statuses that the JavaScript keeps in the page are
    held here as plain data (module Ui). `submitGuess` contains no `await`, so
    it is one atomic step: `isProcessing` is raised and lowered within it. */
module Session {
  import opened Optional
  import opened Rules
  import opened Letters
  import opened Scoring
  import opened Ui

  datatype Game = Game(
    target: string,    // targetWord, upper-cased; "" when no word could be drawn
    row: nat,          // currentRow
    col: nat,          // currentCol
    processing: bool,  // isProcessing
    over: bool,        // gameOver
    board: Board,
    keys: KeyStatus)

  /** The shape every state the game reaches has: the grid is complete, the
      cursor is on it, and the cells before the cursor hold one letter each. */
  predicate WellFormed(g: Game) {
    && Shaped(g.board)
    && g.row < MaxAttempts
    && g.col <= WordLength
    && forall c :: 0 <= c < g.col ==> |g.board[g.row][c].text| == 1
  }

  /** The texts of a row of cells, concatenated. */
  function RowText(cells: seq<Cell>): (w: string)
    ensures (forall c :: 0 <= c < |cells| ==> |cells[c].text| == 1) ==>
      |w| == |cells| && forall c :: 0 <= c < |cells| ==> w[c] == cells[c].text[0]
  {
    if |cells| == 0 then "" else cells[0].text + RowText(cells[1..])
  }

  /** Every cell of the row holds exactly one letter. */
  predicate Filled(cells: seq<Cell>) {
    |cells| == WordLength && forall c :: 0 <= c < |cells| ==> |cells[c].text| == 1
  }

  /** The word spelled by a filled row, upper-cased as `getCurrentGuess` does. */
  function RowWord(cells: seq<Cell>): (w: string)
    requires Filled(cells)
    ensures |w| == WordLength
    ensures forall c :: 0 <= c < WordLength ==> w[c] == Upper(cells[c].text[0])
  {
    UpperString(RowText(cells))
  }

  /** `getCurrentGuess`: the word in the current row once it is full. */
  function CurrentGuess(g: Game): (w: string)
    requires WellFormed(g) && g.col == WordLength
    ensures |w| == WordLength
  {
    RowWord(g.board[g.row])
  }

  /** A submitted row: full, and every cell coloured with the score of its word. */
  predicate Scored(cells: seq<Cell>, target: string) {
    && Filled(cells)
    && forall c :: 0 <= c < WordLength ==>
         cells[c].mark == Some(Evaluate(RowWord(cells), target)[c].status)
  }

  /** The invariant of the session, kept by every key press:
      - no step is half done, and a game without a word is over;
      - rows above the cursor were submitted, scored, and missed;
      - the current row holds capital letters before the cursor and nothing after it,
        and is uncoloured while the game runs;
      - rows below the cursor are untouched;
      - a game with a word ends only on a scored row that either is the word or is the last row;
      - only keys that exist carry a status. */
  predicate Valid(g: Game) {
    && WellFormed(g)
    && !g.processing
    && (|g.target| == 0 ==> g.over)
    && (forall r :: 0 <= r < g.row ==> Scored(g.board[r], g.target) && RowWord(g.board[r]) != g.target)
    && (forall c :: 0 <= c < g.col ==> IsCapitalLetter(g.board[g.row][c].text[0]))
    && (forall c :: g.col <= c < WordLength ==> g.board[g.row][c].text == "")
    && (!g.over ==> forall c :: 0 <= c < WordLength ==> g.board[g.row][c].mark.None?)
    && (forall r, c :: g.row < r < MaxAttempts && 0 <= c < WordLength ==> g.board[r][c] == Blank)
    && (g.over && |g.target| > 0 ==>
          && g.col == WordLength
          && Scored(g.board[g.row], g.target)
          && (RowWord(g.board[g.row]) == g.target || g.row == MaxAttempts - 1))
    && (forall k :: k in g.keys ==> HasKey(k))
  }

  // ----- Operations --------------------------------------------------------

  /** `resetState`: the drawn word becomes the upper-cased target, the cursor
      goes home and both flags drop, except that an empty word (no dictionary)
      leaves the game over. The board and keyboard are not touched. */
  function ResetState(g: Game, word: string): (r: Game)
    ensures r.row == 0 && r.col == 0 && !r.processing
    ensures r.over <==> |word| == 0
    ensures |r.target| == |word| && forall i :: 0 <= i < |word| ==> r.target[i] == Upper(word[i])
    ensures r.board == g.board && r.keys == g.keys
  {
    var target := UpperString(word);
    g.(target := target, row := 0, col := 0, processing := false, over := target == "")
  }

  /** `newGame`: a fresh board, a cleared keyboard, then `resetState`. The
      state built by the constructor and `initializeGame` is the same. */
  function NewGame(g: Game, word: string): (r: Game)
    ensures Valid(r)
    ensures r.target == UpperString(word)
    ensures r.row == 0 && r.col == 0 && (r.over <==> |word| == 0)
    ensures forall k :: Lookup(r.keys, k).None?
    ensures forall row, c :: 0 <= row < MaxAttempts && 0 <= c < WordLength ==> r.board[row][c] == Blank
  {
    ResetState(g.(board := CreateBoard(), keys := ResetKeyboard()), word)
  }

  /** `addLetter`: the letter goes into the cell under the cursor, which moves right. */
  function AddLetter(g: Game, letter: string): (r: Game)
    requires WellFormed(g) && g.col < WordLength && |letter| == 1
    ensures WellFormed(r)
    ensures r.row == g.row && r.col == g.col + 1
    ensures r.board[g.row][g.col] == g.board[g.row][g.col].(text := letter)
    ensures SameOutside(g.board, r.board, g.row, g.col)
    ensures r.target == g.target && r.over == g.over && r.processing == g.processing && r.keys == g.keys
  {
    g.(board := UpdateCell(g.board, g.row, g.col, letter), col := g.col + 1)
  }

  /** `deleteLetter`: with a letter before the cursor, the cursor moves left and
      that cell is cleared; otherwise nothing happens. */
  function DeleteLetter(g: Game): (r: Game)
    requires WellFormed(g)
    ensures WellFormed(r)
    ensures g.col == 0 ==> r == g
    ensures g.col > 0 ==> && r.row == g.row && r.col == g.col - 1
                          && r.board[g.row][g.col - 1] == g.board[g.row][g.col - 1].(text := "")
                          && SameOutside(g.board, r.board, g.row, g.col - 1)
    ensures r.target == g.target && r.over == g.over && r.processing == g.processing && r.keys == g.keys
  {
    if g.col > 0 then
      g.(col := g.col - 1, board := UpdateCell(g.board, g.row, g.col - 1, ""))
    else g
  }

  /** `submitGuess`. A row that is not full is refused (the row shakes) and
      nothing changes. A full row is scored and coloured, and the keyboard
      updated; then the game is won if the guess is the target, lost if this
      was the last row, and otherwise moves to the next row. */
  function Submit(g: Game): (r: Game)
    requires WellFormed(g)
    ensures WellFormed(r)
    ensures r.target == g.target
    ensures g.col != WordLength ==> r == g
    ensures g.col == WordLength ==> !r.processing
    ensures g.col == WordLength ==>
      forall c :: 0 <= c < WordLength ==>
        r.board[g.row][c] == g.board[g.row][c].(mark := Some(Evaluate(CurrentGuess(g), g.target)[c].status))
    ensures g.col == WordLength ==>
      forall row, c :: 0 <= row < MaxAttempts && row != g.row && 0 <= c < WordLength ==>
        r.board[row][c] == g.board[row][c]
    ensures g.col == WordLength ==> r.keys == UpdateKeys(g.keys, Evaluate(CurrentGuess(g), g.target))
    ensures g.col == WordLength && CurrentGuess(g) == g.target ==> r.over && r.row == g.row && r.col == g.col
    ensures g.col == WordLength && CurrentGuess(g) != g.target && g.row == MaxAttempts - 1 ==>
      r.over && r.row == g.row && r.col == g.col
    ensures g.col == WordLength && CurrentGuess(g) != g.target && g.row < MaxAttempts - 1 ==>
      r.row == g.row + 1 && r.col == 0 && r.over == g.over
  {
    if g.col != WordLength then g
    else
      var guess := CurrentGuess(g);
      var result := Evaluate(guess, g.target);
      var scored := g.(processing := true,
                       board := MarkRow(g.board, g.row, result),
                       keys := UpdateKeys(g.keys, result));
      var next :=
        if guess == g.target then scored.(over := true)
        else if g.row == MaxAttempts - 1 then scored.(over := true)
        else scored.(row := g.row + 1, col := 0);
      next.(processing := false)
  }

  /** The key names `handleKeyPress` recognises, compared after upper-casing. */
  predicate IsEnterKey(key: string) {
    UpperString(key) == "ENTER"
  }

  predicate IsEraseKey(key: string) {
    UpperString(key) == "BACKSPACE" || UpperString(key) == "DELETE"
  }

  /** `handleKeyPress`: ignored once the game is over or a submission is under
      way; otherwise Enter submits, Backspace or Delete erases, a single Cyrillic
      letter is typed (upper-cased) while the row has room, and any other key
      does nothing. */
  function Step(g: Game, key: string): (r: Game)
    requires WellFormed(g)
    ensures WellFormed(r)
    ensures r.target == g.target
    ensures g.over || g.processing ==> r == g
    ensures r.row == g.row || (r.row == g.row + 1 && r.col == 0)
    ensures !g.over && !g.processing && IsEnterKey(key) ==> r == Submit(g)
    ensures !g.over && !g.processing && IsEraseKey(key) ==> r == DeleteLetter(g)
    ensures !g.over && !g.processing && IsLetterKey(key) ==>
      && (g.col == WordLength ==> r == g)
      && (g.col < WordLength ==> && r == AddLetter(g, UpperString(key))
                                 && r.board[g.row][g.col].text == [Upper(key[0])])
    ensures !IsEnterKey(key) && !IsEraseKey(key) && !IsLetterKey(key) ==> r == g
  {
    if g.over || g.processing then g
    else if IsEnterKey(key) then Submit(g)
    else if IsEraseKey(key) then DeleteLetter(g)
    else if g.col < WordLength && IsLetterKey(key) then AddLetter(g, UpperString(key))
    else g
  }

  /** A sequence of key presses, one after another. */
  function Run(g: Game, keys: seq<string>): (r: Game)
    requires WellFormed(g)
    ensures WellFormed(r)
    decreases |keys|
  {
    if |keys| == 0 then g else Run(Step(g, keys[0]), keys[1..])
  }

}
