/** The placeholder board of 04-fifteen/src/main.js: no moves yet, only
    `resetBoard`, which rebuilds `tiles` as the solved layout with a push loop
    and zeroes the move counter. Its `formatTime` is the same text as the one
    in 05-fifteen and is modelled once, in module TimeFormat. */
module FifteenPlaceholder {
  import opened FifteenBoard

  /** The placeholder's global state: `size`, the `tiles` list and `moves`. */
  class Board {
    var size: int
    var tiles: seq<int>
    var moves: nat

    /** The page load: the first `resetBoard()` at the initial size. */
    constructor (initialSize: int)
      ensures size == initialSize && moves == 0
      ensures tiles == if initialSize != 0 then SolvedBoard(initialSize * initialSize) else [0]
    {
      size := initialSize;
      tiles := [];
      moves := 0;
      new;
      ResetBoard();
    }

    /** `resetBoard()`: push 1 .. size*size-1, then the blank, and reset the counter.
        A zero size still pushes the blank, giving `[0]`. */
    method ResetBoard()
      modifies this
      ensures size == old(size) && moves == 0
      ensures size != 0 ==> tiles == SolvedBoard(size * size) && IsSolvedLayout(tiles)
      ensures size != 0 ==> IsPermutation(tiles, size * size)
      ensures size == 0 ==> tiles == [0]
    {
      var n := size * size;
      tiles := [];
      var v := 1;
      while v < n
        invariant size == old(size) && n == size * size
        invariant 1 <= v && (v <= n || v == 1)
        invariant tiles == seq(v - 1, i => i + 1)
      {
        tiles := tiles + [v];
        v := v + 1;
      }
      tiles := tiles + [0];
      moves := 0;
      if size != 0 {
        MulAtLeastOne(size);
        assert tiles == SolvedBoard(n);
        SolvedIsPermutation(n);
      }
    }
  }

  lemma MulAtLeastOne(size: int)
    requires size != 0
    ensures size * size >= 1
  {
    if size < 0 {
      assert size * size == (-size) * (-size);
    }
  }
}
