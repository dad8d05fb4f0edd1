/** `evaluateGuess` in the shape of the JavaScript: an array of flags for the
    consumed target positions, a result array filled in two loops, and
    `findIndex` as a left-to-right search. The flag array is sized to the
    target here; the JavaScript allocates five entries and lets the array grow
    when a longer target is written past its end, which marks the same
    positions. It is proved to compute the functional scorer. */
module ScoringLoop {
  import opened Optional
  import opened Rules
  import opened Scoring

  /** The positions an array of flags marks as consumed. */
  function UsedSet(used: seq<bool>): (u: set<nat>)
    ensures forall j: nat :: j in u <==> j < |used| && used[j]
  {
    set j: nat | j < |used| && used[j]
  }

  /** The `findIndex` search of pass two: the first target position that is not
      consumed and holds `c`; -1 if there is none. */
  method FindIndex(target: string, used: seq<bool>, c: char) returns (index: int)
    requires |used| == |target|
    ensures index == -1 <==> FirstFree(target, UsedSet(used), c, 0).None?
    ensures index != -1 ==> FirstFree(target, UsedSet(used), c, 0) == Some(index)
  {
    var j := 0;
    while j < |target|
      invariant 0 <= j <= |target|
      invariant FirstFree(target, UsedSet(used), c, 0) == FirstFree(target, UsedSet(used), c, j)
    {
      if !used[j] && target[j] == c {
        return j;
      }
      j := j + 1;
    }
    return -1;
  }

  /** The result array after pass one: exact positions are filled, the rest empty. */
  predicate PassOneSlots(guess: string, target: string, slots: seq<Option<Mark>>, from: nat) {
    && |slots| == |guess|
    && forall k :: from <= k < |slots| ==>
         slots[k] == if Exact(guess, target, k) then Some(Mark(guess[k], Correct)) else None
  }

  /** Pass one of `evaluateGuess`: mark exact matches and consume their target
      positions, in a flag array with one entry per target letter. */
  method MarkExact(guess: string, target: string) returns (used: seq<bool>, slots: seq<Option<Mark>>)
    requires |guess| == WordLength
    ensures |used| == |target| && UsedSet(used) == ExactPositions(guess, target)
    ensures PassOneSlots(guess, target, slots, 0)
  {
    used := seq(|target|, _ => false);
    slots := seq(WordLength, _ => None);
    var i := 0;
    while i < WordLength
      invariant 0 <= i <= WordLength
      invariant |used| == |target| && |slots| == WordLength
      invariant forall j: nat :: j < |target| ==> (used[j] <==> j < i && Exact(guess, target, j))
      invariant forall k :: 0 <= k < i ==>
        slots[k] == if Exact(guess, target, k) then Some(Mark(guess[k], Correct)) else None
      invariant forall k :: i <= k < WordLength ==> slots[k] == None
    {
      if i < |target| && guess[i] == target[i] {
        slots := slots[i := Some(Mark(guess[i], Correct))];
        used := used[i := true];
      }
      i := i + 1;
    }
    assert forall j: nat :: j in UsedSet(used) <==> j in ExactPositions(guess, target);
  }

  /** The consumed positions after pass two has handled position `i`. */
  function NextUsed(guess: string, target: string, i: nat, used: set<nat>): set<nat>
    requires i < |guess|
  {
    if Exact(guess, target, i) then used
    else match FirstFree(target, used, guess[i], 0)
      case Some(j) => used + {j}
      case None => used
  }

  /** One position of pass two: the head of the remaining scan is the mark of
      position `i`, and its tail is the scan from `i + 1`. */
  lemma ScanAdvance(guess: string, target: string, i: nat, used: set<nat>, expected: seq<Mark>)
    requires i < |guess| && i <= |expected| && expected[i..] == Scan(guess, target, i, used)
    ensures i < |expected| && expected[i] == Scan(guess, target, i, used)[0]
    ensures expected[i + 1..] == Scan(guess, target, i + 1, NextUsed(guess, target, i, used))
  {
    var next := Scan(guess, target, i, used);
    assert expected[i + 1..] == expected[i..][1..];
    assert next[1..] == Scan(guess, target, i + 1, NextUsed(guess, target, i, used));
  }

  /** Setting one flag adds its position to the consumed set. */
  lemma UsedSetSet(used: seq<bool>, index: nat)
    requires index < |used|
    ensures UsedSet(used[index := true]) == UsedSet(used) + {index}
  {
    assert forall j: nat :: j in UsedSet(used[index := true]) <==> j in UsedSet(used) + {index};
  }

  /** The slots before `n` hold the expected marks. */
  predicate Settled(slots: seq<Option<Mark>>, expected: seq<Mark>, n: nat) {
    n <= |slots| && n <= |expected| && forall k :: 0 <= k < n ==> slots[k] == Some(expected[k])
  }

  /** A slot that pass one left empty: the expected mark and the consumed
      positions after it follow the first free target position holding the letter. */
  lemma EmptySlot(guess: string, target: string, i: nat, used: set<nat>, expected: seq<Mark>)
    requires i < |guess| && !Exact(guess, target, i)
    requires i < |expected| && expected[i] == Scan(guess, target, i, used)[0]
    ensures FirstFree(target, used, guess[i], 0).Some? ==>
      && expected[i] == Mark(guess[i], Present)
      && NextUsed(guess, target, i, used) == used + {FirstFree(target, used, guess[i], 0).value}
    ensures FirstFree(target, used, guess[i], 0).None? ==>
      expected[i] == Mark(guess[i], Absent) && NextUsed(guess, target, i, used) == used
  {
  }

  /** Filling slot `i` with its expected mark settles one more slot. */
  lemma SettleSlot(guess: string, target: string, slots: seq<Option<Mark>>, expected: seq<Mark>, i: nat)
    requires Settled(slots, expected, i) && PassOneSlots(guess, target, slots, i)
    requires i < |slots| && i < |expected|
    requires slots[i].Some? ==> slots[i] == Some(expected[i])
    ensures Settled(slots[i := Some(expected[i])], expected, i + 1)
    ensures PassOneSlots(guess, target, slots[i := Some(expected[i])], i + 1)
    ensures slots[i].Some? ==> slots[i := Some(expected[i])] == slots
  {
  }

  /** Pass two of `evaluateGuess`: every empty slot takes the first free target
      position holding its letter, or is absent. */
  method MarkRest(guess: string, target: string, used0: seq<bool>, slots0: seq<Option<Mark>>)
    returns (result: seq<Mark>)
    requires |guess| == WordLength
    requires |used0| == |target| && UsedSet(used0) == ExactPositions(guess, target)
    requires PassOneSlots(guess, target, slots0, 0)
    ensures result == Evaluate(guess, target)
  {
    var used, slots := used0, slots0;
    ghost var u := UsedSet(used);
    ghost var expected := Evaluate(guess, target);
    var i := 0;
    while i < WordLength
      invariant 0 <= i <= WordLength
      invariant |used| == |target| && |slots| == WordLength && |expected| == WordLength
      invariant u == UsedSet(used)
      invariant expected[i..] == Scan(guess, target, i, u)
      invariant Settled(slots, expected, i)
      invariant PassOneSlots(guess, target, slots, i)
    {
      ScanAdvance(guess, target, i, u, expected);
      ghost var u' := NextUsed(guess, target, i, u);
      if slots[i].None? {
        EmptySlot(guess, target, i, u, expected);
        SettleSlot(guess, target, slots, expected, i);
        var index := FindIndex(target, used, guess[i]);
        if index != -1 {
          slots := slots[i := Some(Mark(guess[i], Present))];
          UsedSetSet(used, index);
          used := used[index := true];
        } else {
          slots := slots[i := Some(Mark(guess[i], Absent))];
        }
      } else {
        SettleSlot(guess, target, slots, expected, i);
      }
      u := u';
      i := i + 1;
    }
    result := seq(WordLength, k requires 0 <= k < WordLength => slots[k].value);
  }

  /** `evaluateGuess`: pass one, then pass two. */
  method EvaluateGuess(guess: string, target: string) returns (result: seq<Mark>)
    requires |guess| == WordLength
    ensures result == Evaluate(guess, target)
  {
    var used, slots := MarkExact(guess, target);
    result := MarkRest(guess, target, used, slots);
  }

}
