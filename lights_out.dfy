/** The Lights Out game of 03-lights-out/main.js: the board, the move history
    (`moveStack`, `movePtr`, `moves`) and the stored best score, updated in place
    by the click, keyboard, undo, redo, shuffle and hint handlers.

    Each handler's effect is first stated as a function on a `Session` value, so
    that lemmas can relate several handlers; the class `Game` holds the same state in
    fields and its methods are proved to perform exactly those steps. */
module LightsOut {
  import opened Js
  import opened RowMajor
  import opened LightsOutBoard
  import Bests

  /** Everything a Lights Out handler reads or writes. `best` is the in-memory
      `bestMoves`: `None` for the `null` that `localStorage` returns when nothing is stored. */
  datatype Session = Session(size: int, board: seq<bool>, stack: seq<int>, ptr: int, moves: nat, best: Option<int>)

  /** What every handler preserves: a square board, a pointer into the history
      (or -1), recorded moves on the board, and a move counter no larger than the
      number of entries up to the pointer. */
  predicate ValidSession(h: Session)
  {
    && h.size > 0
    && |h.board| == h.size * h.size
    && -1 <= h.ptr < |h.stack|
    && h.moves <= h.ptr + 1
    && ValidMoves(h.size, h.stack)
  }

  /** `moveStack` after `trimHistory()`: the entries up to and including the pointer. */
  function Trimmed(stack: seq<int>, ptr: int): (t: seq<int>)
    requires ptr >= -1
    ensures |t| == if |stack| > ptr + 1 then ptr + 1 else |stack|
    ensures t == stack[..|t|]
  {
    if |stack| > ptr + 1 then stack[..ptr + 1] else stack
  }

  /** `Math.min(bestMoves, moves)` as the click handler evaluates it: a `null`
      best converts to 0. */
  function BestAfterWin(stored: Option<int>, moves: int): int
  {
    var b := if stored.None? then 0 else stored.value;
    if b <= moves then b else moves
  }

  /** A new game: `shuffle()` from all-off with the random presses `picks`. */
  function AfterShuffle(size: int, picks: seq<int>, best: Option<int>): (h: Session)
    requires size > 0 && |picks| == 3 * size * size && ValidMoves(size, picks)
    ensures ValidSession(h) && h.size == size
    ensures h.moves == 0 && h.stack == [] && h.ptr == -1 && h.best == best
    ensures Solvable(size, h.board)
  {
    ShuffleIsSolvable(size, picks);
    Session(size, PressAll(AllOff(size * size), size, picks), [], -1, 0, best)
  }

  /** The board click handler for cell `i`. */
  function AfterClick(h: Session, i: int): (r: Session)
    requires ValidSession(h) && 0 <= i < |h.board|
    ensures ValidSession(r) && r.size == h.size
    ensures r.board == Press(h.board, h.size, i)
    ensures r.ptr == h.ptr + 1 && |r.stack| == r.ptr + 1 && r.stack[r.ptr] == i
    ensures r.stack[..r.ptr] == h.stack[..r.ptr]
    ensures r.moves == h.moves + 1
    ensures r.best == if IsWin(r.board) then Some(BestAfterWin(h.best, r.moves)) else h.best
  {
    var board := Press(h.board, h.size, i);
    var stack := Trimmed(h.stack, h.ptr) + [i];
    var moves := h.moves + 1;
    Session(h.size, board, stack, h.ptr + 1, moves,
            if IsWin(board) then Some(BestAfterWin(h.best, moves)) else h.best)
  }

  /** The Space/Enter handler for cell `i`: `btn.click()` runs the click handler,
      then the handler records `i` a second time without counting a move. */
  function AfterKey(h: Session, i: int): (r: Session)
    requires ValidSession(h) && 0 <= i < |h.board|
    ensures ValidSession(r)
    ensures r.board == Press(h.board, h.size, i) && r.moves == h.moves + 1
    ensures r.ptr == h.ptr + 2 && |r.stack| == r.ptr + 1 && r.stack[r.ptr - 1] == i && r.stack[r.ptr] == i
    ensures r.stack[..h.ptr + 1] == h.stack[..h.ptr + 1]
    ensures r.size == h.size && r.best == AfterClick(h, i).best
  {
    var c := AfterClick(h, i);
    c.(stack := Trimmed(c.stack, c.ptr) + [i], ptr := c.ptr + 1)
  }

  /** `undo()`: when `moves > 0`, toggle the single cell recorded at the pointer. */
  function AfterUndo(h: Session): (r: Session)
    requires ValidSession(h)
    ensures ValidSession(r) && r.size == h.size && r.stack == h.stack && r.best == h.best
    ensures h.moves == 0 ==> r == h
    ensures h.moves > 0 ==> 0 <= h.ptr && r.board == Toggle(h.board, h.stack[h.ptr])
                            && r.ptr == h.ptr - 1 && r.moves == h.moves - 1
  {
    if h.moves > 0 then
      h.(board := Toggle(h.board, h.stack[h.ptr]), ptr := h.ptr - 1, moves := h.moves - 1)
    else h
  }

  /** `redo()`: when an entry lies past the pointer, toggle the single cell recorded
      AT the pointer (none when the pointer is -1, where `moveStack[-1]` is
      `undefined`), then advance the pointer and the counter. */
  function AfterRedo(h: Session): (r: Session)
    requires ValidSession(h)
    ensures ValidSession(r) && r.size == h.size && r.stack == h.stack && r.best == h.best
    ensures h.ptr >= |h.stack| - 1 ==> r == h
    ensures h.ptr < |h.stack| - 1 ==>
              r.board == (if h.ptr >= 0 then Toggle(h.board, h.stack[h.ptr]) else h.board)
              && r.ptr == h.ptr + 1 && r.moves == h.moves + 1
  {
    if h.ptr < |h.stack| - 1 then
      var board := if h.ptr >= 0 then Toggle(h.board, h.stack[h.ptr]) else h.board;
      h.(board := board, ptr := h.ptr + 1, moves := h.moves + 1)
    else h
  }

  /** A new move right after clicking leaves nothing to redo. */
  lemma ClickClearsRedo(h: Session, i: int)
    requires ValidSession(h) && 0 <= i < |h.board|
    ensures AfterRedo(AfterClick(h, i)) == AfterClick(h, i)
  {
  }

  // ---------------------------------------------------------------------------
  // How the handlers as written differ from the history the game intends.

  /** Undo after a click never restores the board on a board of two or more rows:
      the clicked cell's vertical neighbour was flipped by the move and is not
      flipped back. */
  lemma UndoNeverRestores(h: Session, i: int)
    requires ValidSession(h) && h.size >= 2 && 0 <= i < |h.board|
    ensures AfterUndo(AfterClick(h, i)).board != h.board
  {
    var c := AfterClick(h, i);
    var u := AfterUndo(c);
    assert u.board == Toggle(c.board, i);
    var j := VerticalNeighbour(h.size, i);
    PressAt(h.board, h.size, i, j);
    assert u.board[j] != h.board[j];
  }

  /** A cell in the same column one row down, or one row up from the last row. */
  lemma VerticalNeighbour(size: int, i: int) returns (j: int)
    requires size >= 2 && 0 <= i < size * size
    ensures 0 <= j < size * size && j != i && AffectedBy(size, i, j)
  {
    var r, c := i / size, i % size;
    RowColInRange(size, i);
    var r' := if r < size - 1 then r + 1 else r - 1;
    IndexInRange(size, r', c);
    DivModOfIndex(size, r', c);
    j := r' * size + c;
  }

  /** Redo right after undoing the first move of a game does not replay it: the
      pointer is back at -1, so nothing is toggled and the board stays as undo left
      it, which is not the board the move produced. */
  lemma RedoDoesNotReplay(h: Session, i: int)
    requires ValidSession(h) && h.ptr == -1 && 0 <= i < |h.board|
    ensures var c := AfterClick(h, i);
            var u := AfterUndo(c);
            AfterRedo(u).board == u.board && AfterRedo(u).board != c.board
  {
    var c := AfterClick(h, i);
    var u := AfterUndo(c);
    assert u.ptr == -1 && u.board == Toggle(c.board, i);
    assert u.board[i] != c.board[i];
  }

  /** A Space/Enter press records its cell twice, so one keyboard move leaves two
      history entries and a pointer two ahead of the counter's worth. */
  lemma KeyRecordsTwice(h: Session, i: int)
    requires ValidSession(h) && 0 <= i < |h.board|
    ensures AfterKey(h, i).ptr + 1 - AfterKey(h, i).moves == h.ptr + 1 - h.moves + 1
  {
  }

  /** The first win with no stored best records 0 moves, whatever the move count;
      from then on every later win keeps 0. */
  lemma FirstWinRecordsZero(moves: nat, later: nat)
    requires moves >= 1
    ensures BestAfterWin(None, moves) == 0
    ensures BestAfterWin(Some(BestAfterWin(None, moves)), later) == 0
  {
  }

  /** The history as intended: `Undo` and `Redo` re-apply the whole move
      (moves are self-inverse) and the move counter tracks the pointer. */
  predicate IntendedValid(h: Session)
  {
    ValidSession(h) && h.moves == h.ptr + 1
  }

  /** Intended click: as written, but the first win sets the record to the move count. */
  function IntendedClick(h: Session, i: int): (r: Session)
    requires IntendedValid(h) && 0 <= i < |h.board|
    ensures IntendedValid(r) && r.size == h.size && r.board == Press(h.board, h.size, i)
    ensures r.ptr == h.ptr + 1 && r.stack == Trimmed(h.stack, h.ptr) + [i]
    ensures r.best == if IsWin(r.board) then Bests.RecordBest(h.best, r.moves) else h.best
  {
    var c := AfterClick(h, i);
    c.(best := if IsWin(c.board) then Bests.RecordBest(h.best, c.moves) else h.best)
  }

  /** Intended undo: re-apply the move at the pointer. */
  function IntendedUndo(h: Session): (r: Session)
    requires IntendedValid(h)
    ensures IntendedValid(r) && r.stack == h.stack && r.size == h.size && r.best == h.best
    ensures h.ptr == -1 ==> r == h
    ensures h.ptr >= 0 ==> r.ptr == h.ptr - 1 && r.board == Press(h.board, h.size, h.stack[h.ptr])
  {
    if h.ptr >= 0 then
      h.(board := Press(h.board, h.size, h.stack[h.ptr]), ptr := h.ptr - 1, moves := h.moves - 1)
    else h
  }

  /** Intended redo: re-apply the move just past the pointer. */
  function IntendedRedo(h: Session): (r: Session)
    requires IntendedValid(h)
    ensures IntendedValid(r) && r.stack == h.stack && r.size == h.size && r.best == h.best
    ensures h.ptr >= |h.stack| - 1 ==> r == h
    ensures h.ptr < |h.stack| - 1 ==>
              r.ptr == h.ptr + 1 && r.board == Press(h.board, h.size, h.stack[h.ptr + 1])
  {
    if h.ptr < |h.stack| - 1 then
      h.(board := Press(h.board, h.size, h.stack[h.ptr + 1]), ptr := h.ptr + 1, moves := h.moves + 1)
    else h
  }

  /** Intended undo after a click restores the board, the pointer and the counter. */
  lemma IntendedUndoRestores(h: Session, i: int)
    requires IntendedValid(h) && 0 <= i < |h.board|
    ensures var u := IntendedUndo(IntendedClick(h, i));
            u.board == h.board && u.ptr == h.ptr && u.moves == h.moves
  {
    PressTwice(h.board, h.size, i);
  }

  /** Intended redo after an undo restores the session exactly. */
  lemma IntendedRedoRestores(h: Session)
    requires IntendedValid(h) && h.ptr >= 0
    ensures IntendedRedo(IntendedUndo(h)) == h
  {
    PressTwice(h.board, h.size, h.stack[h.ptr]);
  }

  /** After an undo and a new move, redo has nothing left to replay. */
  lemma IntendedNewMoveDropsRedo(h: Session, i: int)
    requires IntendedValid(h) && h.ptr >= 0 && 0 <= i < |h.board|
    ensures var c := IntendedClick(IntendedUndo(h), i);
            IntendedRedo(c) == c && |c.stack| == h.ptr + 1
  {
  }

  // ---------------------------------------------------------------------------
  // The game object.

  class Game {
    var size: int
    var state: array<bool>
    var moves: nat
    var moveStack: seq<int>
    var movePtr: int
    var bestMoves: Option<int>

    /** The handlers' view of the object. */
    ghost function Snapshot(): Session
      reads this, state
    {
      Session(size, state[..], moveStack, movePtr, moves, bestMoves)
    }

    ghost predicate Inv()
      reads this, state
    {
      ValidSession(Snapshot())
    }

    /** `init()`: the default size 3, the stored best, and a first shuffle. */
    constructor (stored: Option<int>, picks: seq<int>)
      requires |picks| == 27 && ValidMoves(3, picks)
      ensures Inv() && Snapshot() == AfterShuffle(3, picks, stored)
    {
      size := 3;
      state := new bool[0];
      moves := 0;
      moveStack := [];
      movePtr := -1;
      bestMoves := stored;
      new;
      Shuffle(picks);
    }

    /** `toggle(i)`. */
    method Toggle(i: int)
      requires 0 <= i < state.Length
      modifies state
      ensures state[..] == LightsOutBoard.Toggle(old(state[..]), i)
    {
      state[i] := !state[i];
    }

    /** `applyMove(i)`: toggle `i`, then loop over the four offsets. */
    method ApplyMove(i: int)
      requires size > 0 && state.Length == size * size && 0 <= i < state.Length
      modifies state
      ensures state[..] == Press(old(state[..]), size, i)
    {
      var r := FloorDiv(i, size);
      var c := Rem(i, size);
      Toggle(i);
      ghost var start := state[..];
      for k := 0 to |Deltas|
        invariant state[..] == ToggleNeighbours(start, size, r, c, Deltas[..k])
      {
        var d := Deltas[k];
        var rr, cc := r + d.0, c + d.1;
        assert Deltas[..k + 1][..k] == Deltas[..k];
        if InBounds(size, rr, cc) {
          IndexInRange(size, rr, cc);
          Toggle(Idx(size, rr, cc));
        }
      }
      assert Deltas[..|Deltas|] == Deltas;
    }

    /** `shuffle()`: all off, then `3 * size * size` random presses; history cleared. */
    method Shuffle(picks: seq<int>)
      requires size > 0 && |picks| == 3 * size * size && ValidMoves(size, picks)
      modifies this
      ensures size == old(size) && bestMoves == old(bestMoves)
      ensures fresh(state) && Inv()
      ensures Snapshot() == AfterShuffle(size, picks, bestMoves)
    {
      var n := size * size;
      state := new bool[n](_ => false);
      ghost var off := state[..];
      assert off == AllOff(n);
      var shuffleMoves := n * 3;
      assert shuffleMoves == |picks|;
      for k := 0 to shuffleMoves
        invariant fresh(state) && state.Length == n
        invariant state[..] == PressAll(off, size, picks[..k])
        modifies state
      {
        ghost var before := state[..];
        ApplyMove(picks[k]);
        assert picks[..k + 1][..k] == picks[..k];
        assert state[..] == Press(before, size, picks[k]);
      }
      assert picks[..shuffleMoves] == picks;
      moves := 0;
      moveStack := [];
      movePtr := -1;
    }

    /** The size selector: a new size, then `shuffle()`. */
    method ChangeSize(newSize: int, picks: seq<int>)
      requires 3 <= newSize <= 7 && |picks| == 3 * newSize * newSize && ValidMoves(newSize, picks)
      modifies this
      ensures fresh(state) && Inv()
      ensures Snapshot() == AfterShuffle(newSize, picks, old(bestMoves))
    {
      size := newSize;
      Shuffle(picks);
    }

    /** `trimHistory()`: pop until at most one entry is at or past the pointer. */
    method TrimHistory()
      requires movePtr >= -1
      modifies this`moveStack
      ensures moveStack == Trimmed(old(moveStack), movePtr)
    {
      var n := |moveStack| - movePtr;
      while n > 1
        invariant n == |moveStack| - movePtr
        invariant |moveStack| <= |old(moveStack)| && moveStack == old(moveStack)[..|moveStack|]
        invariant |moveStack| >= movePtr + 1 || moveStack == old(moveStack)
      {
        moveStack := moveStack[..|moveStack| - 1];
        n := n - 1;
      }
    }

    /** `undo()`. */
    method Undo()
      requires Inv()
      modifies this, state
      ensures state == old(state) && Inv()
      ensures Snapshot() == AfterUndo(old(Snapshot()))
    {
      if moves > 0 {
        Toggle(moveStack[movePtr]);
        movePtr := movePtr - 1;
        moves := moves - 1;
      }
    }

    /** `redo()`; at pointer -1, `toggle(undefined)` changes no cell. */
    method Redo()
      requires Inv()
      modifies this, state
      ensures state == old(state) && Inv()
      ensures Snapshot() == AfterRedo(old(Snapshot()))
    {
      if movePtr < |moveStack| - 1 {
        if movePtr >= 0 {
          Toggle(moveStack[movePtr]);
        }
        movePtr := movePtr + 1;
        moves := moves + 1;
      }
    }

    /** The board click handler for the tile at index `i`. */
    method Click(i: int)
      requires Inv() && 0 <= i < state.Length
      modifies this, state
      ensures state == old(state) && Inv()
      ensures Snapshot() == AfterClick(old(Snapshot()), i)
    {
      ApplyMove(i);
      TrimHistory();
      moveStack := moveStack + [i];
      movePtr := movePtr + 1;
      moves := moves + 1;
      if IsWin(state[..]) {
        bestMoves := Some(BestAfterWin(bestMoves, moves));
      }
    }

    /** The Space/Enter key handler on the tile at index `i`. */
    method KeySelect(i: int)
      requires Inv() && 0 <= i < state.Length
      modifies this, state
      ensures state == old(state) && Inv()
      ensures Snapshot() == AfterKey(old(Snapshot()), i)
    {
      Click(i);
      TrimHistory();
      moveStack := moveStack + [i];
      movePtr := movePtr + 1;
    }

    /** `showHint()`: the tile to highlight, if any. */
    method ShowHint() returns (target: Option<int>)
      requires Inv()
      ensures target == HintTarget(size, state[..])
      ensures target.None? <==> IsWin(state[..])
    {
      target := None;
      if !IsWin(state[..]) {
        var index := 0;
        while index < state.Length
          invariant 0 <= index <= state.Length
          invariant forall j :: 0 <= j < index ==> !state[j]
        {
          if state[index] {
            assert FirstOn(state[..]) == index;
            var pos := GetRC(size, index);
            var r := Rem(pos.r + 1, size);
            IndexInRange(size, r, pos.c);
            target := Some(Idx(size, r, pos.c));
            return;
          }
          index := index + 1;
        }
      }
    }
  }
}
