/** `UIController` reduced to the data it keeps in the page: the text and
    status class of every board cell, and the status recorded on every key of
    the virtual keyboard. Element lookup, animation and messages are not
    modelled. */
module Ui {
  import opened Optional
  import opened Rules
  import opened Scoring
  import Letters

  // ----- Board ------------------------------------------------------------

  /** One board cell: its `textContent` and the `status-*` class it received. */
  datatype Cell = Cell(text: string, mark: Option<Status>)

  type Board = seq<seq<Cell>>

  /** `MaxAttempts` rows of `WordLength` cells. */
  predicate Shaped(board: Board) {
    |board| == MaxAttempts && forall r :: 0 <= r < |board| ==> |board[r]| == WordLength
  }

  /** An untouched cell, as `createBoard` makes it. */
  const Blank: Cell := Cell("", None)

  /** `createBoard`: a fresh grid of blank cells. */
  function CreateBoard(): (board: Board)
    ensures Shaped(board)
    ensures forall r, c :: 0 <= r < MaxAttempts && 0 <= c < WordLength ==> board[r][c] == Blank
  {
    seq(MaxAttempts, _ => seq(WordLength, _ => Blank))
  }

  /** Every cell other than (row, col) is the same in both boards. */
  predicate SameOutside(b1: Board, b2: Board, row: int, col: int)
    requires Shaped(b1) && Shaped(b2)
  {
    forall r, c :: 0 <= r < MaxAttempts && 0 <= c < WordLength && (r != row || c != col) ==>
      b1[r][c] == b2[r][c]
  }

  /** `updateCell`: write a letter (or '') into cell (row, col). A position with
      no cell is ignored, as the lookup finds no element there. */
  function UpdateCell(board: Board, row: int, col: int, letter: string): (r: Board)
    requires Shaped(board)
    ensures Shaped(r)
    ensures SameOutside(board, r, row, col)
    ensures 0 <= row < MaxAttempts && 0 <= col < WordLength ==>
      r[row][col] == Cell(letter, board[row][col].mark)
    ensures !(0 <= row < MaxAttempts && 0 <= col < WordLength) ==> r == board
  {
    if 0 <= row < MaxAttempts && 0 <= col < WordLength then
      board[row := board[row][col := board[row][col].(text := letter)]]
    else board
  }

  /** The cell half of `updateRowStatus`: cell (row, c) gets the status of
      `result[c]`; other rows, and every letter, are untouched. */
  function MarkRow(board: Board, row: int, result: seq<Mark>): (b: Board)
    requires Shaped(board)
    ensures Shaped(b)
    ensures forall r, c :: 0 <= r < MaxAttempts && 0 <= c < WordLength ==> b[r][c].text == board[r][c].text
    ensures forall r, c :: 0 <= r < MaxAttempts && 0 <= c < WordLength && r != row ==> b[r][c] == board[r][c]
    ensures 0 <= row < MaxAttempts ==> forall c :: 0 <= c < WordLength ==>
      b[row][c].mark == (if c < |result| then Some(result[c].status) else board[row][c].mark)
  {
    if 0 <= row < MaxAttempts then
      board[row := seq(WordLength, c requires 0 <= c < WordLength =>
        if c < |result| then board[row][c].(mark := Some(result[c].status)) else board[row][c])]
    else board
  }

  // ----- Keyboard -----------------------------------------------------------

  /** The `data-key` values of the virtual keyboard built by `createKeyboard`.
      There is no key for Ё. */
  const KeyNames: set<string> := {
    "Й", "Ц", "У", "К", "Е", "Н", "Г", "Ш", "Щ", "З", "Х", "Ъ",
    "Ф", "Ы", "В", "А", "П", "Р", "О", "Л", "Д", "Ж", "Э",
    "ENTER", "Я", "Ч", "С", "М", "И", "Т", "Ь", "Б", "Ю", "BACKSPACE"
  }

  /** The keyboard has a key whose `data-key` is the letter `c`. */
  predicate HasKey(c: char) {
    [c] in KeyNames
  }

  /** The status recorded on each key (`key.dataset.status`); a key without an
      entry has no status. */
  type KeyStatus = map<char, Status>

  function Lookup(keys: KeyStatus, c: char): Option<Status> {
    if c in keys then Some(keys[c]) else None
  }

  /** The priority of the statuses: absent < present < correct. */
  function Rank(s: Status): nat {
    match s
    case Absent => 0
    case Present => 1
    case Correct => 2
  }

  /** The higher-ranked of two statuses. */
  function Join(a: Status, b: Status): (r: Status)
    ensures Rank(a) <= Rank(r) && Rank(b) <= Rank(r)
    ensures r == a || r == b
  {
    if Rank(a) >= Rank(b) then a else b
  }

  /** `Join` lifted to "no status", which ranks below every status. */
  function Combine(a: Option<Status>, b: Option<Status>): Option<Status> {
    if a.None? then b else if b.None? then a else Some(Join(a.value, b.value))
  }

  /** The branch of `updateRowStatus` that decides a key's new status from its
      recorded status and the status of the incoming result entry. It is the
      higher-ranked of the two. */
  function MergeKey(current: Option<Status>, incoming: Status): (r: Status)
    ensures Some(r) == Combine(current, Some(incoming))
    ensures current.None? || current == Some(Absent) ==> r == incoming
    ensures current == Some(Correct) ==> r == Correct
    ensures current == Some(Present) ==> r != Absent
  {
    if || incoming == Correct
       || current.None?
       || current == Some(Absent)
       || (current == Some(Present) && incoming == Correct)
    then incoming
    else if incoming == Present && current != Some(Correct) then Present
    else current.value
  }

  /** One entry of the key half of `updateRowStatus`: the key of the entry's
      upper-cased letter, if the keyboard has one, takes the merged status. */
  function ApplyEntry(keys: KeyStatus, m: Mark): KeyStatus {
    var k := Letters.Upper(m.letter);
    if HasKey(k) then keys[k := MergeKey(Lookup(keys, k), m.status)] else keys
  }

  /** A result entry of letter `k` (after upper-casing) with status `s` occurs in `result`. */
  predicate HasEntry(result: seq<Mark>, k: char, s: Status) {
    exists m :: m in result && Letters.Upper(m.letter) == k && m.status == s
  }

  /** The best status `result` gives letter `k`, or none. */
  function Best(result: seq<Mark>, k: char): Option<Status> {
    if HasEntry(result, k, Correct) then Some(Correct)
    else if HasEntry(result, k, Present) then Some(Present)
    else if HasEntry(result, k, Absent) then Some(Absent)
    else None
  }

  /** The key half of `updateRowStatus`: the entries applied left to right.
      No key loses rank, only keys of the row's letters change, and only keys
      that exist are recorded. */
  function UpdateKeys(keys: KeyStatus, result: seq<Mark>): (r: KeyStatus)
    decreases |result|
    ensures forall k :: k in keys ==> k in r && Rank(keys[k]) <= Rank(r[k])
    ensures forall k :: k in r && k !in keys ==> HasKey(k)
    ensures forall k :: (forall m :: m in result ==> Letters.Upper(m.letter) != k) ==> Lookup(r, k) == Lookup(keys, k)
  {
    if |result| == 0 then keys
    else UpdateKeys(ApplyEntry(keys, result[0]), result[1..])
  }

  lemma CombineAssociative(a: Option<Status>, b: Option<Status>, c: Option<Status>)
    ensures Combine(Combine(a, b), c) == Combine(a, Combine(b, c))
  {
  }

  /** What a single entry says about letter `k`. */
  function EntryFor(m: Mark, k: char): Option<Status> {
    if Letters.Upper(m.letter) == k then Some(m.status) else None
  }

  lemma {:induction false} HasEntryCons(m: Mark, rest: seq<Mark>, k: char, s: Status)
    ensures HasEntry([m] + rest, k, s) <==> (EntryFor(m, k) == Some(s) || HasEntry(rest, k, s))
  {
    if HasEntry(rest, k, s) {
      var w :| w in rest && Letters.Upper(w.letter) == k && w.status == s;
      assert w in [m] + rest;
    }
    if EntryFor(m, k) == Some(s) {
      assert m in [m] + rest;
    }
  }

  /** The best status of a row is the first entry's combined with the rest's. */
  lemma {:induction false} BestCons(m: Mark, rest: seq<Mark>, k: char)
    ensures Best([m] + rest, k) == Combine(EntryFor(m, k), Best(rest, k))
  {
    HasEntryCons(m, rest, k, Correct);
    HasEntryCons(m, rest, k, Present);
    HasEntryCons(m, rest, k, Absent);
  }

  /** Applying a row sets every existing key to the best of its recorded status
      and every status the row gives its letter: the result does not depend on
      the order of the entries. */
  lemma {:induction false} UpdateKeysClosedForm(keys: KeyStatus, result: seq<Mark>, k: char)
    ensures Lookup(UpdateKeys(keys, result), k)
         == if HasKey(k) then Combine(Lookup(keys, k), Best(result, k)) else Lookup(keys, k)
    decreases |result|
  {
    if |result| == 0 {
      assert !HasEntry(result, k, Correct) && !HasEntry(result, k, Present) && !HasEntry(result, k, Absent);
    } else {
      var m, rest := result[0], result[1..];
      assert result == [m] + rest;
      var keys' := ApplyEntry(keys, m);
      UpdateKeysClosedForm(keys', rest, k);
      BestCons(m, rest, k);
      if HasKey(k) {
        assert Lookup(keys', k) == Combine(Lookup(keys, k), EntryFor(m, k));
        CombineAssociative(Lookup(keys, k), EntryFor(m, k), Best(rest, k));
      } else {
        assert Lookup(keys', k) == Lookup(keys, k);
      }
    }
  }

  /** Two key maps that agree on every lookup are the same map. */
  lemma LookupExtensional(a: KeyStatus, b: KeyStatus)
    requires forall k :: Lookup(a, k) == Lookup(b, k)
    ensures a == b
  {
    assert a.Keys == b.Keys by {
      forall k ensures k in a <==> k in b {
        assert Lookup(a, k).Some? <==> Lookup(b, k).Some?;
      }
    }
    forall k | k in a ensures a[k] == b[k] {
      assert Lookup(a, k) == Lookup(b, k);
    }
  }

  /** The keys after a row depend only on which entries the row holds, not on
      their order or repetition. */
  lemma UpdateKeysOrderIndependent(keys: KeyStatus, r1: seq<Mark>, r2: seq<Mark>)
    requires forall m :: m in r1 <==> m in r2
    ensures UpdateKeys(keys, r1) == UpdateKeys(keys, r2)
  {
    forall k ensures Lookup(UpdateKeys(keys, r1), k) == Lookup(UpdateKeys(keys, r2), k) {
      UpdateKeysClosedForm(keys, r1, k);
      UpdateKeysClosedForm(keys, r2, k);
      assert Best(r1, k) == Best(r2, k);
    }
    LookupExtensional(UpdateKeys(keys, r1), UpdateKeys(keys, r2));
  }

  /** Applying the same row twice is applying it once. */
  lemma UpdateKeysIdempotent(keys: KeyStatus, result: seq<Mark>)
    ensures UpdateKeys(UpdateKeys(keys, result), result) == UpdateKeys(keys, result)
  {
    var once := UpdateKeys(keys, result);
    forall k ensures Lookup(UpdateKeys(once, result), k) == Lookup(once, k) {
      UpdateKeysClosedForm(keys, result, k);
      UpdateKeysClosedForm(once, result, k);
      CombineAssociative(Lookup(keys, k), Best(result, k), Best(result, k));
    }
    LookupExtensional(UpdateKeys(once, result), once);
  }

  /** `resetKeyboard`: every key loses its recorded status. */
  function ResetKeyboard(): (keys: KeyStatus)
    ensures forall k :: Lookup(keys, k).None?
  {
    map[]
  }

}
