/** `FiveLetterGame.evaluateGuess`: the two-pass scorer.

    Pass one marks every position whose guessed letter equals the target's
    letter there as correct and consumes that target position. Pass two walks
    the remaining positions left to right; each takes the first unconsumed
    target position holding its letter (and is present) or finds none (and is
    absent).

    The target comes from an external dictionary, so its length is not fixed
    here: a position beyond the end of the target is never an exact match
    (JavaScript compares the letter with `undefined`), and the search of pass
    two scans the whole target. Consumed positions are a set of indexes, as the
    JavaScript array `usedTargetIndexes` grows when written past its end. */
module Scoring {
  import opened Optional
  import opened Rules

  datatype Status = Absent | Present | Correct

  /** One entry of the result: `{ letter, status }`. */
  datatype Mark = Mark(letter: char, status: Status)

  /** Position `i` is an exact positional match. */
  predicate Exact(guess: string, target: string, i: nat) {
    i < |guess| && i < |target| && guess[i] == target[i]
  }

  /** The target positions consumed by pass one. */
  function ExactPositions(guess: string, target: string): (used: set<nat>)
    ensures forall i: nat :: i in used <==> Exact(guess, target, i)
    ensures forall i :: i in used ==> i < |target|
  {
    set i: nat | i < |guess| && Exact(guess, target, i)
  }

  /** `targetLetters.findIndex(...)` started at `from`: the first target position
      at or after `from` that is unconsumed and holds `c`. */
  function FirstFree(target: string, used: set<nat>, c: char, from: nat): (r: Option<nat>)
    decreases |target| - from
    ensures r.Some? ==> from <= r.value < |target| && r.value !in used && target[r.value] == c
    ensures r.Some? ==> forall m: nat :: from <= m < r.value ==> m in used || target[m] != c
    ensures r.None? ==> forall m: nat :: from <= m < |target| ==> m in used || target[m] != c
  {
    if from >= |target| then None
    else if from !in used && target[from] == c then Some(from)
    else FirstFree(target, used, c, from + 1)
  }

  /** Pass two from position `i` on, with `used` the target positions consumed
      so far. Exact positions keep their pass-one mark. */
  function Scan(guess: string, target: string, i: nat, used: set<nat>): (r: seq<Mark>)
    requires i <= |guess|
    decreases |guess| - i
    ensures |r| == |guess| - i
    ensures forall k :: 0 <= k < |r| ==> r[k].letter == guess[i + k]
    ensures forall k :: 0 <= k < |r| ==> (r[k].status == Correct <==> Exact(guess, target, i + k))
  {
    if i == |guess| then []
    else if Exact(guess, target, i) then
      [Mark(guess[i], Correct)] + Scan(guess, target, i + 1, used)
    else
      match FirstFree(target, used, guess[i], 0)
      case Some(j) => [Mark(guess[i], Present)] + Scan(guess, target, i + 1, used + {j})
      case None => [Mark(guess[i], Absent)] + Scan(guess, target, i + 1, used)
  }

  /** The scorer: one mark per guessed letter. Position `i` is correct exactly
      when the guess and the target agree there. */
  function Evaluate(guess: string, target: string): (r: seq<Mark>)
    requires |guess| == WordLength
    ensures |r| == WordLength
    ensures forall i :: 0 <= i < |r| ==> r[i].letter == guess[i]
    ensures forall i :: 0 <= i < |r| ==> (r[i].status == Correct <==> (i < |target| && guess[i] == target[i]))
  {
    Scan(guess, target, 0, ExactPositions(guess, target))
  }

  /** Every position of the result is correct. */
  predicate AllCorrect(r: seq<Mark>) {
    forall i :: 0 <= i < |r| ==> r[i].status == Correct
  }

  /** The result is all-correct exactly when the guess is the target, which is
      the win test `guess === this.targetWord` of `submitGuess` for a target of
      the game's word length; a guess equal to the target is always all-correct. */
  lemma AllCorrectIffMatch(guess: string, target: string)
    requires |guess| == WordLength
    ensures guess == target ==> AllCorrect(Evaluate(guess, target))
    ensures |target| == WordLength ==> (AllCorrect(Evaluate(guess, target)) <==> guess == target)
  {
    var r := Evaluate(guess, target);
    if |target| == WordLength && AllCorrect(r) {
      assert forall i :: 0 <= i < WordLength ==> guess[i] == target[i] by {
        forall i | 0 <= i < WordLength
          ensures guess[i] == target[i]
        {
          assert r[i].status == Correct;
        }
      }
    }
  }

}
