/** The duplicate-letter laws of the scorer.

    They are proved through a reference scorer that forgets target positions:
    it keeps a pool (a multiset) of the target letters pass one did not
    consume, and pass two takes a letter from the pool when it can. The
    index-based scorer is shown to compute the same marks, and the laws are
    proved of the pool scorer. */
module ScoringLaws {
  import opened Optional
  import opened Rules
  import opened Scoring

  /** Target letters at positions `j..` that pass one does not consume. */
  function Pool(guess: string, target: string, j: nat): multiset<char>
    decreases |target| - j
  {
    if j >= |target| then multiset{}
    else (if Exact(guess, target, j) then multiset{} else multiset{target[j]}) + Pool(guess, target, j + 1)
  }

  /** Pass two over a pool of letters instead of target positions. */
  function PoolScan(guess: string, target: string, i: nat, pool: multiset<char>): (r: seq<Mark>)
    requires i <= |guess|
    decreases |guess| - i
    ensures |r| == |guess| - i
    ensures forall k :: 0 <= k < |r| ==> r[k].letter == guess[i + k]
  {
    if i == |guess| then []
    else if Exact(guess, target, i) then
      [Mark(guess[i], Correct)] + PoolScan(guess, target, i + 1, pool)
    else if guess[i] in pool then
      [Mark(guess[i], Present)] + PoolScan(guess, target, i + 1, pool - multiset{guess[i]})
    else
      [Mark(guess[i], Absent)] + PoolScan(guess, target, i + 1, pool)
  }

  /** The reference scorer. */
  function Reference(guess: string, target: string): seq<Mark>
  {
    PoolScan(guess, target, 0, Pool(guess, target, 0))
  }

  // ----- Unconsumed target letters --------------------------------------

  /** Letters of the target at positions `j..` that are not in `used`. */
  function Free(target: string, used: set<nat>, j: nat): multiset<char>
    decreases |target| - j
  {
    if j >= |target| then multiset{}
    else (if j in used then multiset{} else multiset{target[j]}) + Free(target, used, j + 1)
  }

  /** After pass one, the unconsumed letters are the pool. */
  lemma {:induction false} FreeAfterPassOne(guess: string, target: string, j: nat)
    ensures Free(target, ExactPositions(guess, target), j) == Pool(guess, target, j)
    decreases |target| - j
  {
    if j < |target| {
      FreeAfterPassOne(guess, target, j + 1);
    }
  }

  /** Consuming a position below `j` does not change what is free from `j` on. */
  lemma {:induction false} FreeIgnoresBelow(target: string, used: set<nat>, p: nat, j: nat)
    requires p < j
    ensures Free(target, used + {p}, j) == Free(target, used, j)
    decreases |target| - j
  {
    if j < |target| {
      var u' := used + {p};
      assert j in u' <==> j in used;
      FreeIgnoresBelow(target, used, p, j + 1);
      var head := if j in used then multiset{} else multiset{target[j]};
      assert Free(target, used, j) == head + Free(target, used, j + 1);
      assert Free(target, u', j) == head + Free(target, u', j + 1);
    }
  }

  /** Consuming a free position `p` removes exactly its letter. */
  lemma {:induction false} FreeConsume(target: string, used: set<nat>, p: nat, j: nat)
    requires j <= p < |target| && p !in used
    ensures Free(target, used, j) == Free(target, used + {p}, j) + multiset{target[p]}
    decreases |target| - j
  {
    if j == p {
      FreeConsumeHere(target, used, p);
    } else {
      FreeConsume(target, used, p, j + 1);
      FreeConsumeLater(target, used, p, j);
    }
  }

  lemma FreeConsumeHere(target: string, used: set<nat>, p: nat)
    requires p < |target| && p !in used
    ensures Free(target, used, p) == Free(target, used + {p}, p) + multiset{target[p]}
  {
    var rest := Free(target, used, p + 1);
    assert Free(target, used, p) == multiset{target[p]} + rest;
    assert Free(target, used + {p}, p) == rest by {
      assert p in used + {p};
      FreeIgnoresBelow(target, used, p, p + 1);
    }
  }

  lemma FreeConsumeLater(target: string, used: set<nat>, p: nat, j: nat)
    requires j < p < |target|
    requires Free(target, used, j + 1) == Free(target, used + {p}, j + 1) + multiset{target[p]}
    ensures Free(target, used, j) == Free(target, used + {p}, j) + multiset{target[p]}
  {
    var head := if j in used then multiset{} else multiset{target[j]};
    assert Free(target, used, j) == head + Free(target, used, j + 1);
    assert Free(target, used + {p}, j) == head + Free(target, used + {p}, j + 1) by {
      assert j in used + {p} <==> j in used;
    }
  }

  /** `findIndex` succeeds exactly when the letter is among the free ones. */
  lemma {:induction false} FirstFreeFindsPool(target: string, used: set<nat>, c: char, j: nat)
    ensures FirstFree(target, used, c, j).Some? <==> c in Free(target, used, j)
    decreases |target| - j
  {
    if j < |target| {
      FirstFreeFindsPool(target, used, c, j + 1);
    }
  }

  /** Pass two over positions equals pass two over the pool of free letters. */
  lemma {:induction false} ScanIsPoolScan(guess: string, target: string, i: nat, used: set<nat>)
    requires i <= |guess|
    ensures Scan(guess, target, i, used) == PoolScan(guess, target, i, Free(target, used, 0))
    decreases |guess| - i
  {
    if i < |guess| {
      var found := FirstFree(target, used, guess[i], 0);
      FirstFreeFindsPool(target, used, guess[i], 0);
      if !Exact(guess, target, i) && found.Some? {
        ScanIsPoolScan(guess, target, i + 1, used + {found.value});
        FreeTake(target, used, guess[i], found.value);
        PresentStep(guess, target, i, used, found.value);
      } else {
        ScanIsPoolScan(guess, target, i + 1, used);
        KeepStep(guess, target, i, used);
      }
    }
  }

  /** Consuming the first free position holding `c` takes one `c` from the free letters. */
  lemma FreeTake(target: string, used: set<nat>, c: char, j: nat)
    requires FirstFree(target, used, c, 0) == Some(j)
    ensures c in Free(target, used, 0)
    ensures Free(target, used + {j}, 0) == Free(target, used, 0) - multiset{c}
  {
    FreeConsume(target, used, j, 0);
  }

  /** One exact or absent position: both scans give it the same mark and
      consume nothing. */
  lemma KeepStep(guess: string, target: string, i: nat, used: set<nat>)
    requires i < |guess|
    requires Exact(guess, target, i) || FirstFree(target, used, guess[i], 0).None?
    requires FirstFree(target, used, guess[i], 0).Some? <==> guess[i] in Free(target, used, 0)
    requires Scan(guess, target, i + 1, used) == PoolScan(guess, target, i + 1, Free(target, used, 0))
    ensures Scan(guess, target, i, used) == PoolScan(guess, target, i, Free(target, used, 0))
  {
    var pool := Free(target, used, 0);
    var status := if Exact(guess, target, i) then Correct else Absent;
    assert Scan(guess, target, i, used) == [Mark(guess[i], status)] + Scan(guess, target, i + 1, used);
    assert PoolScan(guess, target, i, pool) == [Mark(guess[i], status)] + PoolScan(guess, target, i + 1, pool);
  }

  /** One present position: both scans mark it present, the index scan
      consumes position `j` and the pool scan one copy of the letter, which
      leave the same free letters. */
  lemma PresentStep(guess: string, target: string, i: nat, used: set<nat>, j: nat)
    requires i < |guess| && !Exact(guess, target, i)
    requires FirstFree(target, used, guess[i], 0) == Some(j)
    requires guess[i] in Free(target, used, 0)
    requires Free(target, used + {j}, 0) == Free(target, used, 0) - multiset{guess[i]}
    requires Scan(guess, target, i + 1, used + {j})
          == PoolScan(guess, target, i + 1, Free(target, used + {j}, 0))
    ensures Scan(guess, target, i, used) == PoolScan(guess, target, i, Free(target, used, 0))
  {
    var pool := Free(target, used, 0);
    assert Scan(guess, target, i, used)
        == [Mark(guess[i], Present)] + Scan(guess, target, i + 1, used + {j});
    assert PoolScan(guess, target, i, pool)
        == [Mark(guess[i], Present)] + PoolScan(guess, target, i + 1, pool - multiset{guess[i]});
  }

  /** The scorer and the reference scorer agree on every input. */
  lemma EvaluateIsReference(guess: string, target: string)
    requires |guess| == WordLength
    ensures Evaluate(guess, target) == Reference(guess, target)
  {
    ScanIsPoolScan(guess, target, 0, ExactPositions(guess, target));
    FreeAfterPassOne(guess, target, 0);
  }

  // ----- Counting ---------------------------------------------------------

  /** Number of marks for letter `c` that are not absent. */
  function Hits(ms: seq<Mark>, c: char): nat
  {
    if |ms| == 0 then 0
    else (if ms[0].letter == c && ms[0].status != Absent then 1 else 0) + Hits(ms[1..], c)
  }

  /** Guessed letters at exact positions `i..`. */
  function ExactLetters(guess: string, target: string, i: nat): multiset<char>
    decreases |guess| - i
  {
    if i >= |guess| then multiset{}
    else (if Exact(guess, target, i) then multiset{guess[i]} else multiset{}) + ExactLetters(guess, target, i + 1)
  }

  /** Guessed letters at non-exact positions `i..`. */
  function LooseLetters(guess: string, target: string, i: nat): multiset<char>
    decreases |guess| - i
  {
    if i >= |guess| then multiset{}
    else (if Exact(guess, target, i) then multiset{} else multiset{guess[i]}) + LooseLetters(guess, target, i + 1)
  }

  /** Target letters at exact positions `j..`. */
  function ExactTargetLetters(guess: string, target: string, j: nat): multiset<char>
    decreases |target| - j
  {
    if j >= |target| then multiset{}
    else (if Exact(guess, target, j) then multiset{target[j]} else multiset{}) + ExactTargetLetters(guess, target, j + 1)
  }

  function Min(a: int, b: int): int { if a <= b then a else b }

  /** The counting invariant of pass two: every exact position counts, and the
      non-exact ones count as far as the pool lasts. */
  lemma {:induction false} PoolScanHits(guess: string, target: string, i: nat, pool: multiset<char>, c: char)
    requires i <= |guess|
    ensures Hits(PoolScan(guess, target, i, pool), c)
         == ExactLetters(guess, target, i)[c] + Min(LooseLetters(guess, target, i)[c], pool[c])
    decreases |guess| - i
  {
    if i < |guess| {
      var pool' := if !Exact(guess, target, i) && guess[i] in pool then pool - multiset{guess[i]} else pool;
      PoolScanHits(guess, target, i + 1, pool', c);
      PoolScanHitsStep(guess, target, i, pool, c);
    }
  }

  /** One step of the counting invariant, given that it holds from `i + 1` on. */
  lemma PoolScanHitsStep(guess: string, target: string, i: nat, pool: multiset<char>, c: char)
    requires i < |guess|
    requires var pool' := if !Exact(guess, target, i) && guess[i] in pool then pool - multiset{guess[i]} else pool;
      Hits(PoolScan(guess, target, i + 1, pool'), c)
        == ExactLetters(guess, target, i + 1)[c] + Min(LooseLetters(guess, target, i + 1)[c], pool'[c])
    ensures Hits(PoolScan(guess, target, i, pool), c)
         == ExactLetters(guess, target, i)[c] + Min(LooseLetters(guess, target, i)[c], pool[c])
  {
    var pool' := if !Exact(guess, target, i) && guess[i] in pool then pool - multiset{guess[i]} else pool;
    var rest := PoolScan(guess, target, i + 1, pool');
    var st := if Exact(guess, target, i) then Correct else if guess[i] in pool then Present else Absent;
    assert PoolScan(guess, target, i, pool) == [Mark(guess[i], st)] + rest;
    HitsCons(Mark(guess[i], st), rest, c);
    var one := if guess[i] == c then 1 else 0;
    assert ExactLetters(guess, target, i)[c]
        == ExactLetters(guess, target, i + 1)[c] + (if Exact(guess, target, i) then one else 0);
    assert LooseLetters(guess, target, i)[c]
        == LooseLetters(guess, target, i + 1)[c] + (if Exact(guess, target, i) then 0 else one);
    assert pool'[c] == pool[c] - (if st == Present then one else 0);
    assert st == Absent && one == 1 ==> pool[c] == 0;
  }

  lemma HitsCons(m: Mark, rest: seq<Mark>, c: char)
    ensures Hits([m] + rest, c) == (if m.letter == c && m.status != Absent then 1 else 0) + Hits(rest, c)
  {
    assert ([m] + rest)[1..] == rest;
  }

  lemma {:induction false} GuessSplit(guess: string, target: string, i: nat)
    requires i <= |guess|
    ensures multiset(guess[i..]) == ExactLetters(guess, target, i) + LooseLetters(guess, target, i)
    decreases |guess| - i
  {
    if i < |guess| {
      GuessSplit(guess, target, i + 1);
      assert guess[i..] == [guess[i]] + guess[i + 1..];
    }
  }

  lemma {:induction false} TargetSplit(guess: string, target: string, j: nat)
    requires j <= |target|
    ensures multiset(target[j..]) == ExactTargetLetters(guess, target, j) + Pool(guess, target, j)
    decreases |target| - j
  {
    if j < |target| {
      TargetSplit(guess, target, j + 1);
      assert target[j..] == [target[j]] + target[j + 1..];
    }
  }

  /** An exact position holds the same letter in the guess and in the target. */
  lemma {:induction false} ExactSidesAgree(guess: string, target: string, j: nat)
    ensures ExactLetters(guess, target, j) == ExactTargetLetters(guess, target, j)
    decreases |guess| + |target| - j
  {
    if j < |guess| || j < |target| {
      ExactSidesAgree(guess, target, j + 1);
    }
  }

  /** The duplicate-letter law of the reference scorer. */
  lemma ReferenceHits(guess: string, target: string, c: char)
    ensures Hits(Reference(guess, target), c) == Min(multiset(guess)[c], multiset(target)[c])
  {
    PoolScanHits(guess, target, 0, Pool(guess, target, 0), c);
    GuessSplit(guess, target, 0);
    TargetSplit(guess, target, 0);
    ExactSidesAgree(guess, target, 0);
    assert guess[0..] == guess;
    assert target[0..] == target;
  }

  /** For every letter, the number of non-absent marks it gets equals the
      smaller of its counts in the guess and in the target: each target
      position is consumed at most once, and a letter is never marked more
      often than the target holds it. */
  lemma HitsLaw(guess: string, target: string, c: char)
    requires |guess| == WordLength
    ensures Hits(Evaluate(guess, target), c) == Min(multiset(guess)[c], multiset(target)[c])
    ensures Hits(Evaluate(guess, target), c) <= multiset(target)[c]
  {
    EvaluateIsReference(guess, target);
    ReferenceHits(guess, target, c);
  }

  // ----- Leftmost occurrences win -----------------------------------------

  /** Among the marks of one letter, no absent mark precedes a present one. */
  predicate PresentBeforeAbsent(r: seq<Mark>) {
    forall a, b :: 0 <= a < b < |r| && r[a].letter == r[b].letter && r[a].status == Absent ==>
      r[b].status != Present
  }

  /** A letter missing from the pool is never marked present later on. */
  lemma {:induction false} NeverPresentOutsidePool(guess: string, target: string, i: nat, pool: multiset<char>, c: char)
    requires i <= |guess|
    requires c !in pool
    ensures forall k :: 0 <= k < |guess| - i && PoolScan(guess, target, i, pool)[k].letter == c ==>
      PoolScan(guess, target, i, pool)[k].status != Present
    decreases |guess| - i
  {
    if i < |guess| {
      var r := PoolScan(guess, target, i, pool);
      var pool' := if !Exact(guess, target, i) && guess[i] in pool then pool - multiset{guess[i]} else pool;
      NeverPresentOutsidePool(guess, target, i + 1, pool', c);
      assert r[1..] == PoolScan(guess, target, i + 1, pool');
    }
  }

  /** The leftmost occurrences of a letter take the free target letters. */
  lemma {:induction false} PoolScanLeftmost(guess: string, target: string, i: nat, pool: multiset<char>)
    requires i <= |guess|
    ensures PresentBeforeAbsent(PoolScan(guess, target, i, pool))
    decreases |guess| - i
  {
    if i < |guess| {
      var r := PoolScan(guess, target, i, pool);
      var pool' := if !Exact(guess, target, i) && guess[i] in pool then pool - multiset{guess[i]} else pool;
      var rest := PoolScan(guess, target, i + 1, pool');
      PoolScanLeftmost(guess, target, i + 1, pool');
      assert r == [r[0]] + rest;
      forall a, b | 0 <= a < b < |r| && r[a].letter == r[b].letter && r[a].status == Absent
        ensures r[b].status != Present
      {
        assert r[b] == rest[b - 1];
        if a > 0 {
          assert r[a] == rest[a - 1];
          var a', b' := a - 1, b - 1;
          assert rest[a'].status == Absent && rest[a'].letter == rest[b'].letter;
          assert rest[b'].status != Present;
        } else {
          var k := b - 1;
          assert rest[k].letter == guess[i];
          NeverPresentOutsidePool(guess, target, i + 1, pool', guess[i]);
          assert rest[k].status != Present;
        }
      }
    }
  }

  /** Leftmost occurrences win: among the positions of one guessed letter, every
      present mark comes before every absent mark. */
  lemma LeftmostWin(guess: string, target: string)
    requires |guess| == WordLength
    ensures PresentBeforeAbsent(Evaluate(guess, target))
  {
    EvaluateIsReference(guess, target);
    PoolScanLeftmost(guess, target, 0, Pool(guess, target, 0));
  }

  /** Zero hits for a letter means every mark of that letter is absent. */
  lemma {:induction false} NoHitsAllAbsent(ms: seq<Mark>, c: char)
    requires Hits(ms, c) == 0
    ensures forall k :: 0 <= k < |ms| && ms[k].letter == c ==> ms[k].status == Absent
  {
    if |ms| > 0 {
      NoHitsAllAbsent(ms[1..], c);
      assert forall k :: 1 <= k < |ms| ==> ms[k] == ms[1..][k - 1];
    }
  }

  /** A letter that does not occur in the target is absent wherever it is guessed. */
  lemma MissingLetterAbsent(guess: string, target: string, c: char)
    requires |guess| == WordLength
    requires c !in multiset(target)
    ensures var r := Evaluate(guess, target);
      forall i :: 0 <= i < |r| && guess[i] == c ==> r[i].status == Absent
  {
    HitsLaw(guess, target, c);
    NoHitsAllAbsent(Evaluate(guess, target), c);
  }

  // ----- Worked examples -----------------------------------------------------

  /** Target СЛОВО, guess ВОЛНА: no exact match; В, О and Л each find a free
      target letter, Н and А do not. */
  lemma ExampleNoExactMatch()
    ensures Evaluate("ВОЛНА", "СЛОВО")
         == [Mark('В', Present), Mark('О', Present), Mark('Л', Present), Mark('Н', Absent), Mark('А', Absent)]
  {
    var g, t := "ВОЛНА", "СЛОВО";
    assert ExactPositions(g, t) == {};
    assert FirstFree(t, {}, 'В', 0) == Some(3);
    assert FirstFree(t, {3}, 'О', 0) == Some(2);
    assert FirstFree(t, {3, 2}, 'Л', 0) == Some(1);
    assert FirstFree(t, {3, 2, 1}, 'Н', 0) == None;
    assert FirstFree(t, {3, 2, 1}, 'А', 0) == None;
  }

  /** Target СЛОВО, guess ОКОЛО: the О's at positions 2 and 4 are exact and
      consume both О's of the target before pass two runs, so the first О of
      the guess is absent even though it comes first. */
  lemma ExampleExactBeatsLeftmost()
    ensures Evaluate("ОКОЛО", "СЛОВО")
         == [Mark('О', Absent), Mark('К', Absent), Mark('О', Correct), Mark('Л', Present), Mark('О', Correct)]
  {
    var g, t := "ОКОЛО", "СЛОВО";
    assert !Exact(g, t, 0) && !Exact(g, t, 1) && Exact(g, t, 2) && !Exact(g, t, 3) && Exact(g, t, 4);
    assert ExactPositions(g, t) == {2, 4};
    assert FirstFree(t, {2, 4}, 'О', 0) == None;
    assert FirstFree(t, {2, 4}, 'К', 0) == None;
    assert FirstFree(t, {2, 4}, 'Л', 0) == Some(1);
  }

}
