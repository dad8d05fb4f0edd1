/** The two constants of the game (js/game.js, lines 4-5). */
module Rules {

  /** Letters per word: the number of columns of the board. */
  const WordLength: nat := 5

  /** Guesses per game: the number of rows of the board. */
  const MaxAttempts: nat := 6

}
