/** The sliding puzzle of 05-fifteen/src/main.js as the program runs it: the
    counting loops, the in-place shuffle with its rejection loop, and the game
    object whose `tiles` array the click and keydown handlers update. Random
    draws, the elapsed time and the stored bests are parameters. */
module Fifteen {
  import opened Js
  import opened RowMajor
  import opened FifteenBoard
  import opened FifteenParity
  import Bests

  /** `inversions(arr)`: nested loops over the non-blank tiles counting out-of-order pairs. */
  method CountInversions(arr: seq<int>) returns (inv: nat)
    ensures inv == Inversions(NonBlank(arr))
    ensures inv == |InversionPairs(NonBlank(arr))|
  {
    var a := NonBlank(arr);
    inv := 0;
    var i := 0;
    assert a[0..] == a;
    while i < |a|
      invariant 0 <= i <= |a|
      invariant inv + Inversions(a[i..]) == Inversions(a)
    {
      var c := CountBelowFrom(a, i);
      inv := inv + c;
      InversionsStep(a, i);
      i := i + 1;
    }
    InversionsCountPairs(a);
  }

  /** The inner `for j` loop of `inversions`: how many later tiles are smaller than `a[i]`. */
  method CountBelowFrom(a: seq<int>, i: int) returns (c: nat)
    requires 0 <= i < |a|
    ensures c == CountBelow(a[i], a[i + 1..])
  {
    c := 0;
    var j := i + 1;
    assert a[i + 1..j] == [];
    while j < |a|
      invariant i + 1 <= j <= |a|
      invariant c == CountBelow(a[i], a[i + 1..j])
    {
      CountBelowStep(a, i, j);
      if a[i] > a[j] {
        c := c + 1;
      }
      j := j + 1;
    }
    assert a[i + 1..j] == a[i + 1..];
  }

  lemma CountBelowStep(a: seq<int>, i: int, j: int)
    requires 0 <= i < j < |a|
    ensures CountBelow(a[i], a[i + 1..j + 1]) == CountBelow(a[i], a[i + 1..j]) + if a[i] > a[j] then 1 else 0
  {
    assert a[i + 1..j + 1][..j - i - 1] == a[i + 1..j];
  }

  lemma InversionsStep(a: seq<int>, i: int)
    requires 0 <= i < |a|
    ensures Inversions(a[i..]) == CountBelow(a[i], a[i + 1..]) + Inversions(a[i + 1..])
  {
    assert a[i..][1..] == a[i + 1..];
  }

  /** `isSolvedArray(arr)` (and `isSolved()` on `tiles`): a loop with an early return. */
  method IsSolvedArray(arr: seq<int>) returns (b: bool)
    ensures b == IsSolvedLayout(arr)
  {
    var i := 0;
    while i < |arr| - 1
      invariant 0 <= i <= |arr|
      invariant forall k :: 0 <= k < i ==> arr[k] == k + 1
    {
      if arr[i] != i + 1 {
        assert SolvedBoard(|arr|)[i] == i + 1;
        return false;
      }
      i := i + 1;
    }
    b := |arr| > 0 && arr[|arr| - 1] == 0;
    if b {
      assert arr == SolvedBoard(|arr|);
    }
  }

  /** `isSolvable(arr)` for the current `size`. */
  method IsSolvableCheck(size: int, arr: seq<int>) returns (b: bool)
    requires size > 0
    ensures b == IsSolvable(size, arr)
  {
    var inv := CountInversions(arr);
    if size % 2 == 1 {
      b := inv % 2 == 0;
    } else {
      var blankFromBottom := BlankRowFromBottom(size, arr);
      if Rem(blankFromBottom, 2) == 0 {
        b := inv % 2 == 1;
      } else {
        b := inv % 2 == 0;
      }
    }
  }

  /** One pass of the Fisher-Yates loop of `shuffledSolvableTiles`, in place:
      for i from n-1 down to 1, swap cells i and the draw `d[n-1-i]`. */
  method ShuffleRound(a: array<int>, d: seq<int>)
    requires ValidDraws(a.Length, d)
    modifies a
    ensures a[..] == ShuffleFrom(old(a[..]), d, 0)
  {
    var n := a.Length;
    var i := n - 1;
    while i > 0
      invariant -1 <= i <= n - 1 && (n > 0 ==> 0 <= i)
      invariant ShuffleFrom(a[..], d, n - 1 - i) == ShuffleFrom(old(a[..]), d, 0)
    {
      var j := d[n - 1 - i];
      ghost var s := a[..];
      a[i], a[j] := a[j], a[i];
      assert a[..] == Swap(s, |s| - 1 - (n - 1 - i), d[n - 1 - i]);
      i := i - 1;
    }
  }

  /** Whether the `do ... while` of `shuffledSolvableTiles` stops after `k` rounds. */
  predicate AcceptedAfter(size: int, rounds: seq<seq<int>>, k: nat)
    requires size > 0 && ValidRounds(size * size, rounds) && k <= |rounds|
  {
    Accepted(size, Shuffled(size, rounds, k))
  }

  /** The first number of rounds, from `k` on, after which the `do ... while`
      of `shuffledSolvableTiles` stops, or `None` if the draws run out first. */
  function AcceptedFrom(size: int, rounds: seq<seq<int>>, k: nat): (r: Option<nat>)
    requires size > 0 && ValidRounds(size * size, rounds) && k >= 1
    ensures r.Some? ==> k <= r.value <= |rounds|
    decreases |rounds| + 1 - k
  {
    if k > |rounds| then None
    else if AcceptedAfter(size, rounds, k) then Some(k)
    else AcceptedFrom(size, rounds, k + 1)
  }

  /** `AcceptedFrom` finds the first accepted number of rounds from `k` on, and
      answers `None` exactly when there is none. */
  lemma {:induction false} AcceptedFromIsFirst(size: int, rounds: seq<seq<int>>, k: nat)
    requires size > 0 && ValidRounds(size * size, rounds) && k >= 1
    ensures var r := AcceptedFrom(size, rounds, k);
            && (r.Some? ==> AcceptedAfter(size, rounds, r.value))
            && (r.Some? ==> NoneAccepted(size, rounds, k, r.value))
            && (r.None? ==> NoneAccepted(size, rounds, k, |rounds| + 1))
    decreases |rounds| + 1 - k
  {
    var r := AcceptedFrom(size, rounds, k);
    if k > |rounds| {
      assert r == None;
    } else if AcceptedAfter(size, rounds, k) {
      assert r == Some(k);
    } else {
      AcceptedFromIsFirst(size, rounds, k + 1);
      assert r == AcceptedFrom(size, rounds, k + 1);
      var hi := if r.Some? then r.value else |rounds| + 1;
      NoneAcceptedExtend(size, rounds, k, hi);
    }
  }

  lemma NoneAcceptedExtend(size: int, rounds: seq<seq<int>>, k: nat, hi: nat)
    requires size > 0 && ValidRounds(size * size, rounds) && k < hi <= |rounds| + 1
    requires NoneAccepted(size, rounds, k + 1, hi) && !AcceptedAfter(size, rounds, k)
    ensures NoneAccepted(size, rounds, k, hi)
  {
  }

  /** No number of rounds from `lo` up to, but not including, `hi` is accepted. */
  predicate NoneAccepted(size: int, rounds: seq<seq<int>>, lo: nat, hi: nat)
    requires size > 0 && ValidRounds(size * size, rounds) && hi <= |rounds| + 1
  {
    forall m :: lo <= m < hi ==> !AcceptedAfter(size, rounds, m)
  }

  /** The number of rounds `shuffledSolvableTiles` runs with these draws. */
  function FirstAccepted(size: int, rounds: seq<seq<int>>): Option<nat>
    requires size > 0 && ValidRounds(size * size, rounds)
  {
    AcceptedFrom(size, rounds, 1)
  }

  /** `tiles = Array.from({length: n}, (_, i) => (i + 1) % n)`. */
  method SolvedArray(n: nat) returns (arr: array<int>)
    ensures fresh(arr) && arr[..] == SolvedBoard(n)
  {
    arr := new int[n](i requires 0 <= i < n => (i + 1) % n);
    SolvedBoardModular(n);
  }

  /** `shuffledSolvableTiles()`: start from the solved layout and run Fisher-Yates
      rounds until the board is solvable and not solved. The draws must contain an
      accepted round; the source would loop forever otherwise (for example on a
      1x1 board, see `OneByOneNeverAccepted`). */
  method ShuffledSolvableTiles(size: int, rounds: seq<seq<int>>) returns (arr: array<int>)
    requires size > 0 && ValidRounds(size * size, rounds) && FirstAccepted(size, rounds).Some?
    ensures fresh(arr)
    ensures arr[..] == Shuffled(size, rounds, FirstAccepted(size, rounds).value)
    ensures IsPermutation(arr[..], size * size) && Accepted(size, arr[..])
  {
    var n := size * size;
    arr := SolvedArray(n);
    var used := 0;
    while true
      invariant 0 <= used <= |rounds|
      invariant arr[..] == Shuffled(size, rounds, used)
      invariant AcceptedFrom(size, rounds, used + 1) == FirstAccepted(size, rounds)
      decreases |rounds| - used
    {
      ghost var before := arr[..];
      ShuffleRound(arr, rounds[used]);
      assert arr[..] == ShuffleFrom(before, rounds[used], 0);
      used := used + 1;
      assert arr[..] == Shuffled(size, rounds, used);
      var solvable := IsSolvableCheck(size, arr[..]);
      var solved := IsSolvedArray(arr[..]);
      if solvable && !solved {
        assert AcceptedFrom(size, rounds, used) == Some(used);
        ShuffledPermutation(size, rounds, used);
        break;
      }
      assert !AcceptedAfter(size, rounds, used);
    }
  }

  /** What a successful or failed move leaves behind: the board, the move counter,
      whether the puzzle is solved, and the bests to store for this size. */
  datatype Outcome = Outcome(board: seq<int>, moves: nat, solved: bool, bestMoves: Option<int>, bestTime: Option<int>)

  /** A click or key on tile `t`: `slide(t)`; on success one more move and, when
      the board is then solved, the best-moves and best-time records. */
  function AfterSlide(size: int, s: seq<int>, moves: nat, t: int, elapsed: nat,
                      storedMoves: Option<int>, storedTime: Option<int>): (o: Outcome)
    requires size > 0 && 0 <= t < |s| && 0 in s
    ensures SlideResult(size, s, t).None? ==> o == Outcome(s, moves, false, storedMoves, storedTime)
    ensures SlideResult(size, s, t).Some? ==>
              o.board == SlideResult(size, s, t).value && o.moves == moves + 1
              && o.solved == IsSolvedLayout(o.board)
    ensures !o.solved ==> o.bestMoves == storedMoves && o.bestTime == storedTime
    ensures o.solved ==> o.bestMoves.Some? && o.bestTime.Some?
    ensures o.solved ==> o.bestMoves == Bests.RecordBest(storedMoves, o.moves)
                         && o.bestTime == Bests.RecordBest(storedTime, elapsed)
  {
    match SlideResult(size, s, t)
    case None => Outcome(s, moves, false, storedMoves, storedTime)
    case Some(s') =>
      var solved := IsSolvedLayout(s');
      if solved then
        Outcome(s', moves + 1, true, Bests.RecordBest(storedMoves, moves + 1), Bests.RecordBest(storedTime, elapsed))
      else
        Outcome(s', moves + 1, false, storedMoves, storedTime)
  }

  /** A stored best is written only when none exists or the new value is strictly
      smaller: after any move, neither best is larger than before, and a record
      that changes is the move count or the elapsed time of this win. */
  lemma BestsNeverIncrease(size: int, s: seq<int>, moves: nat, t: int, elapsed: nat,
                           storedMoves: Option<int>, storedTime: Option<int>)
    requires size > 0 && 0 <= t < |s| && 0 in s
    ensures var o := AfterSlide(size, s, moves, t, elapsed, storedMoves, storedTime);
            && (storedMoves.Some? ==> o.bestMoves.Some? && o.bestMoves.value <= storedMoves.value)
            && (storedTime.Some? ==> o.bestTime.Some? && o.bestTime.value <= storedTime.value)
            && (o.bestMoves != storedMoves ==> o.bestMoves == Some(o.moves) && o.solved)
            && (o.bestTime != storedTime ==> o.bestTime == Some(elapsed) && o.solved)
  {
  }

  /** The keys the keydown handler reacts to, with whether focus is inside the board. */
  function AfterKey(size: int, s: seq<int>, moves: nat, key: Key, insideBoard: bool, elapsed: nat,
                    storedMoves: Option<int>, storedTime: Option<int>): (o: Outcome)
    requires size > 0 && IsPermutation(s, size * size)
    ensures key == OtherKey || !insideBoard ==> o == Outcome(s, moves, false, storedMoves, storedTime)
  {
    if key == OtherKey || !insideBoard then Outcome(s, moves, false, storedMoves, storedTime)
    else
      var empty := IndexOf(s, 0);
      match ArrowTarget(size, key, empty)
      case None => Outcome(s, moves, false, storedMoves, storedTime)
      case Some(t) =>
        ArrowTargetCanSlide(size, key, empty);
        AfterSlide(size, s, moves, t, elapsed, storedMoves, storedTime)
  }

  /** Inside the board, an arrow key with no tile to pick changes nothing, and one
      that picks a tile does exactly what clicking that tile does, records included. */
  lemma ArrowKeyActsAsClick(size: int, s: seq<int>, moves: nat, key: Key, elapsed: nat,
                            storedMoves: Option<int>, storedTime: Option<int>)
    requires size > 0 && IsPermutation(s, size * size) && key != OtherKey
    ensures var o := AfterKey(size, s, moves, key, true, elapsed, storedMoves, storedTime);
            var target := ArrowTarget(size, key, IndexOf(s, 0));
            && (target.None? ==> o == Outcome(s, moves, false, storedMoves, storedTime))
            && (target.Some? ==> 0 <= target.value < |s|
                                 && o == AfterSlide(size, s, moves, target.value, elapsed, storedMoves, storedTime))
  {
    ArrowTargetCanSlide(size, key, IndexOf(s, 0));
  }

  /** An arrow key that picks a tile always slides it: the move counter goes up by
      one and the blank moves to the picked cell. */
  lemma ArrowKeyAlwaysSlides(size: int, s: seq<int>, moves: nat, key: Key, elapsed: nat,
                             storedMoves: Option<int>, storedTime: Option<int>)
    requires size > 0 && IsPermutation(s, size * size)
    requires ArrowTarget(size, key, IndexOf(s, 0)).Some?
    ensures var o := AfterKey(size, s, moves, key, true, elapsed, storedMoves, storedTime);
            o.moves == moves + 1 && IsPermutation(o.board, size * size)
            && IndexOf(o.board, 0) == ArrowTarget(size, key, IndexOf(s, 0)).value
  {
    var e := IndexOf(s, 0);
    var t := ArrowTarget(size, key, e).value;
    ArrowTargetCanSlide(size, key, e);
    assert t != e by {
      assert Abs(IndexToRC(size, t).r - IndexToRC(size, e).r) + Abs(IndexToRC(size, t).c - IndexToRC(size, e).c) == 1;
    }
    PermutationPosition(s, size * size, t);
    assert s[t] != 0;
    assert AfterKey(size, s, moves, key, true, elapsed, storedMoves, storedTime)
           == AfterSlide(size, s, moves, t, elapsed, storedMoves, storedTime);
    SlideMovesTileIntoBlank(size, s, t);
  }

  /** The game state of 05-fifteen/src/main.js: `size`, the `tiles` array and the
      `moves` counter. */
  class Game {
    var size: int
    var tiles: array<int>
    var moves: nat

    /** The board is always a permutation of 0 .. size*size-1 that passes the
        solvability test: the shuffle only accepts such boards and no slide changes
        the verdict. */
    ghost predicate Inv()
      reads this, tiles
    {
      size > 0 && IsPermutation(tiles[..], size * size) && IsSolvable(size, tiles[..])
    }

    /** The page load: `newGame()` at the initial size. */
    constructor (initialSize: int, rounds: seq<seq<int>>)
      requires initialSize > 0 && ValidRounds(initialSize * initialSize, rounds)
      requires FirstAccepted(initialSize, rounds).Some?
      ensures Inv() && size == initialSize && moves == 0
      ensures tiles[..] == Shuffled(size, rounds, FirstAccepted(size, rounds).value)
      ensures Accepted(size, tiles[..])
    {
      var board := ShuffledSolvableTiles(initialSize, rounds);
      size := initialSize;
      tiles := board;
      moves := 0;
    }

    /** `newGame()`: a fresh shuffled board and a zero move counter. */
    method NewGame(rounds: seq<seq<int>>)
      requires size > 0 && ValidRounds(size * size, rounds) && FirstAccepted(size, rounds).Some?
      modifies this
      ensures size == old(size) && moves == 0 && fresh(tiles) && Inv()
      ensures tiles[..] == Shuffled(size, rounds, FirstAccepted(size, rounds).value)
      ensures Accepted(size, tiles[..])
    {
      tiles := ShuffledSolvableTiles(size, rounds);
      moves := 0;
    }

    /** The size selector's change handler: a new size, then `newGame()`. */
    method ChangeSize(newSize: int, rounds: seq<seq<int>>)
      requires newSize > 0 && ValidRounds(newSize * newSize, rounds) && FirstAccepted(newSize, rounds).Some?
      modifies this
      ensures size == newSize && moves == 0 && fresh(tiles) && Inv()
      ensures tiles[..] == Shuffled(size, rounds, FirstAccepted(size, rounds).value)
    {
      size := newSize;
      NewGame(rounds);
    }

    /** `findEmpty()`. */
    function FindEmpty(): (e: int)
      reads this, tiles
      requires Inv()
      ensures 0 <= e < tiles.Length && tiles[e] == 0
      ensures forall k :: 0 <= k < tiles.Length && k != e ==> tiles[k] != 0
    {
      var s := tiles[..];
      PermutationPosition(s, size * size, IndexOf(s, 0));
      IndexOf(s, 0)
    }

    /** `isSolved()`: the same early-return loop as `isSolvedArray`, over `tiles`. */
    method IsSolved() returns (b: bool)
      ensures b == IsSolvedLayout(tiles[..])
    {
      var i := 0;
      while i < tiles.Length - 1
        invariant 0 <= i <= tiles.Length
        invariant forall k :: 0 <= k < i ==> tiles[k] == k + 1
      {
        if tiles[i] != i + 1 {
          assert SolvedBoard(tiles.Length)[i] == i + 1;
          return false;
        }
        i := i + 1;
      }
      b := tiles.Length > 0 && tiles[tiles.Length - 1] == 0;
      if b {
        assert tiles[..] == SolvedBoard(tiles.Length);
      }
    }

    /** `slide(t)`: swap tile `t` with the blank when it is a tile next to the blank. */
    method Slide(t: int) returns (ok: bool)
      requires Inv() && 0 <= t < tiles.Length
      modifies tiles
      ensures Inv()
      ensures ok == SlideResult(size, old(tiles[..]), t).Some?
      ensures ok ==> tiles[..] == SlideResult(size, old(tiles[..]), t).value
      ensures !ok ==> tiles[..] == old(tiles[..])
    {
      var emptyIndex := FindEmpty();
      if tiles[t] == 0 {
        return false;
      }
      if !CanSlide(size, t, emptyIndex) {
        return false;
      }
      SlideMovesTileIntoBlank(size, tiles[..], t);
      SlidePreservesSolvable(size, tiles[..], t);
      tiles[t], tiles[emptyIndex] := tiles[emptyIndex], tiles[t];
      ok := true;
    }

    /** What the click and keydown handlers do once they have a tile: slide it,
        count the move, and on a win compute the records to store. */
    method Move(t: int, elapsed: nat, storedMoves: Option<int>, storedTime: Option<int>)
      returns (solved: bool, bestMoves: Option<int>, bestTime: Option<int>)
      requires Inv() && 0 <= t < tiles.Length
      modifies this, tiles
      ensures tiles == old(tiles) && size == old(size) && Inv()
      ensures Outcome(tiles[..], moves, solved, bestMoves, bestTime)
              == AfterSlide(size, old(tiles[..]), old(moves), t, elapsed, storedMoves, storedTime)
    {
      solved, bestMoves, bestTime := false, storedMoves, storedTime;
      var ok := Slide(t);
      if ok {
        moves := moves + 1;
        solved := IsSolved();
        if solved {
          bestMoves := Bests.RecordBest(storedMoves, moves);
          bestTime := Bests.RecordBest(storedTime, elapsed);
        }
      }
    }

    /** The board's click handler on tile `i`. */
    method Click(i: int, elapsed: nat, storedMoves: Option<int>, storedTime: Option<int>)
      returns (solved: bool, bestMoves: Option<int>, bestTime: Option<int>)
      requires Inv() && 0 <= i < tiles.Length
      modifies this, tiles
      ensures tiles == old(tiles) && size == old(size) && Inv()
      ensures Outcome(tiles[..], moves, solved, bestMoves, bestTime)
              == AfterSlide(size, old(tiles[..]), old(moves), i, elapsed, storedMoves, storedTime)
    {
      solved, bestMoves, bestTime := Move(i, elapsed, storedMoves, storedTime);
    }

    /** The board's keydown handler: an arrow key, with focus inside the board,
        slides the tile `ArrowTarget` picks next to the blank. */
    method KeyDown(key: Key, insideBoard: bool, elapsed: nat, storedMoves: Option<int>, storedTime: Option<int>)
      returns (solved: bool, bestMoves: Option<int>, bestTime: Option<int>)
      requires Inv()
      modifies this, tiles
      ensures tiles == old(tiles) && size == old(size) && Inv()
      ensures Outcome(tiles[..], moves, solved, bestMoves, bestTime)
              == AfterKey(size, old(tiles[..]), old(moves), key, insideBoard, elapsed, storedMoves, storedTime)
    {
      solved, bestMoves, bestTime := false, storedMoves, storedTime;
      if key == OtherKey || !insideBoard {
        return;
      }
      var empty := FindEmpty();
      var target := ArrowTarget(size, key, empty);
      if target.Some? {
        ArrowTargetCanSlide(size, key, empty);
        solved, bestMoves, bestTime := Move(target.value, elapsed, storedMoves, storedTime);
      }
    }
  }
}
