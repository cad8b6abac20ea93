/** The Lights Out board as values: a row-major sequence of N*N booleans
    (true = ON), the board rules of 03-lights-out/main.js as functions, and
    the properties those rules have. The stateful game built on them is in
    module LightsOut. */
module LightsOutBoard {
  import opened Js
  import opened RowMajor

  /** The `{r, c}` record returned by `get_rc`. */
  datatype Cell = Cell(r: int, c: int)

  /** `idx(r, c)`. */
  function Idx(size: int, r: int, c: int): int
  {
    r * size + c
  }

  /** `inBounds(r, c)`. */
  predicate InBounds(size: int, r: int, c: int)
  {
    0 <= r < size && 0 <= c < size
  }

  /** `get_rc(i)`: the row and column of index `i`, or `{-1, -1}` when they are off the board. */
  function GetRC(size: int, i: int): (rc: Cell)
    requires size > 0
    ensures rc == Cell(-1, -1) <==> !(0 <= i < size * size)
    ensures rc != Cell(-1, -1) ==> InBounds(size, rc.r, rc.c) && Idx(size, rc.r, rc.c) == i
  {
    var r := FloorDiv(i, size);
    var c := Rem(i, size);
    if 0 <= i < size * size then
      RowColInRange(size, i);
      assert InBounds(size, r, c);
      Cell(r, c)
    else if i < 0 then
      assert r < 0;
      Cell(-1, -1)
    else
      RowPastBoard(size, i);
      Cell(-1, -1)
  }

  /** `get_rc` inverts `idx` on the board. */
  lemma GetRCOfIdx(size: int, r: int, c: int)
    requires InBounds(size, r, c)
    ensures GetRC(size, Idx(size, r, c)) == Cell(r, c)
  {
    IndexInRange(size, r, c);
    DivModOfIndex(size, r, c);
  }

  /** The all-off board of `n` cells. */
  function AllOff(n: nat): (s: seq<bool>)
    ensures |s| == n && forall k :: 0 <= k < n ==> !s[k]
  {
    seq(n, _ => false)
  }

  /** `toggle(i)`: negate one cell. */
  function Toggle(s: seq<bool>, i: int): (t: seq<bool>)
    requires 0 <= i < |s|
    ensures |t| == |s| && t[i] == !s[i]
    ensures forall k :: 0 <= k < |s| && k != i ==> t[k] == s[k]
  {
    s[i := !s[i]]
  }

  /** The four orthogonal offsets, in the order `applyMove` visits them. */
  const Deltas: seq<(int, int)> := [(1, 0), (-1, 0), (0, 1), (0, -1)]

  /** The loop of `applyMove` after visiting the offsets `ds`: toggle each in-bounds
      neighbour of (r, c). */
  function ToggleNeighbours(s: seq<bool>, size: int, r: int, c: int, ds: seq<(int, int)>): (t: seq<bool>)
    requires size > 0 && |s| == size * size
    ensures |t| == |s|
    decreases |ds|
  {
    if |ds| == 0 then s
    else
      var t := ToggleNeighbours(s, size, r, c, ds[..|ds| - 1]);
      var d := ds[|ds| - 1];
      if InBounds(size, r + d.0, c + d.1) then
        IndexInRange(size, r + d.0, c + d.1);
        Toggle(t, Idx(size, r + d.0, c + d.1))
      else t
  }

  /** `applyMove(i)`: toggle cell `i`, then each in-bounds orthogonal neighbour. */
  function Press(s: seq<bool>, size: int, i: int): (t: seq<bool>)
    requires size > 0 && |s| == size * size && 0 <= i < |s|
    ensures |t| == |s|
  {
    ToggleNeighbours(Toggle(s, i), size, FloorDiv(i, size), Rem(i, size), Deltas)
  }

  /** Manhattan distance between the cells at indices `i` and `j`. */
  function Distance(size: int, i: int, j: int): nat
    requires size > 0
  {
    Abs(i / size - j / size) + Abs(i % size - j % size)
  }

  /** Pressing `i` affects cell `j` exactly when the two cells are equal or orthogonally adjacent. */
  predicate AffectedBy(size: int, i: int, j: int)
    requires size > 0
  {
    Distance(size, i, j) <= 1
  }

  predicate Odd(n: nat)
  {
    n % 2 == 1
  }

  /** How many of the offsets `ds` from (r, c) land on cell `j`. */
  function Hits(size: int, r: int, c: int, ds: seq<(int, int)>, j: int): nat
    decreases |ds|
  {
    if |ds| == 0 then 0
    else
      var d := ds[|ds| - 1];
      Hits(size, r, c, ds[..|ds| - 1], j)
        + (if InBounds(size, r + d.0, c + d.1) && Idx(size, r + d.0, c + d.1) == j then 1 else 0)
  }

  /** A cell is flipped by the neighbour loop once per offset that lands on it. */
  lemma {:induction false} ToggleNeighboursAt(s: seq<bool>, size: int, r: int, c: int, ds: seq<(int, int)>, j: int)
    requires size > 0 && |s| == size * size && 0 <= j < |s|
    ensures ToggleNeighbours(s, size, r, c, ds)[j] == (s[j] != Odd(Hits(size, r, c, ds, j)))
    decreases |ds|
  {
    if |ds| > 0 {
      ToggleNeighboursAt(s, size, r, c, ds[..|ds| - 1], j);
    }
  }

  /** Whether offset `d` from (r, c) lands on the board at cell `j`. */
  function Hit(size: int, r: int, c: int, d: (int, int), j: int): nat
  {
    if InBounds(size, r + d.0, c + d.1) && Idx(size, r + d.0, c + d.1) == j then 1 else 0
  }

  lemma HitsOfDeltas(size: int, r: int, c: int, j: int)
    ensures Hits(size, r, c, Deltas, j) ==
            Hit(size, r, c, (1, 0), j) + Hit(size, r, c, (-1, 0), j) +
            Hit(size, r, c, (0, 1), j) + Hit(size, r, c, (0, -1), j)
  {
    var d3 := Deltas[..3];
    assert d3 == [(1, 0), (-1, 0), (0, 1)];
    var d2 := d3[..2];
    assert d2 == [(1, 0), (-1, 0)];
    var d1 := d2[..1];
    assert d1 == [(1, 0)];
    assert d1[..0] == [];
    assert Hits(size, r, c, d1, j) == Hit(size, r, c, (1, 0), j);
    assert Hits(size, r, c, d2, j) == Hits(size, r, c, d1, j) + Hit(size, r, c, (-1, 0), j);
    assert Hits(size, r, c, d3, j) == Hits(size, r, c, d2, j) + Hit(size, r, c, (0, 1), j);
  }

  /** On the board, an offset lands on `j` exactly when it leads to `j`'s row and column. */
  lemma HitOnBoard(size: int, r: int, c: int, d: (int, int), j: int)
    requires size > 0 && 0 <= j < size * size
    ensures Hit(size, r, c, d, j) == if r + d.0 == j / size && c + d.1 == j % size then 1 else 0
  {
    RowColInRange(size, j);
    if InBounds(size, r + d.0, c + d.1) && Idx(size, r + d.0, c + d.1) == j {
      IndexInjective(size, r + d.0, c + d.1, j / size, j % size);
    }
  }

  /** The four offsets land on `j` once when `j` is orthogonally adjacent to (r, c), otherwise never. */
  lemma DeltaHits(size: int, r: int, c: int, j: int)
    requires size > 0 && 0 <= j < size * size
    ensures Hits(size, r, c, Deltas, j) ==
            if Abs(r - j / size) + Abs(c - j % size) == 1 then 1 else 0
  {
    HitsOfDeltas(size, r, c, j);
    HitOnBoard(size, r, c, (1, 0), j);
    HitOnBoard(size, r, c, (-1, 0), j);
    HitOnBoard(size, r, c, (0, 1), j);
    HitOnBoard(size, r, c, (0, -1), j);
  }

  /** Distinct indices are distinct cells. */
  lemma SameCell(size: int, i: int, j: int)
    requires size > 0 && 0 <= i && 0 <= j && i != j
    ensures Distance(size, i, j) > 0
  {
  }

  /** `applyMove(i)` flips exactly cell `i` and its in-bounds orthogonal neighbours. */
  lemma PressAt(s: seq<bool>, size: int, i: int, j: int)
    requires size > 0 && |s| == size * size && 0 <= i < |s| && 0 <= j < |s|
    ensures Press(s, size, i)[j] == (s[j] != AffectedBy(size, i, j))
  {
    var r, c := i / size, i % size;
    var t := Toggle(s, i);
    ToggleNeighboursAt(t, size, r, c, Deltas, j);
    DeltaHits(size, r, c, j);
    assert Press(s, size, i) == ToggleNeighbours(t, size, r, c, Deltas);
    if i != j {
      SameCell(size, i, j);
    }
  }

  /** `applyMove` is its own inverse: pressing the same cell twice restores the board. */
  lemma PressTwice(s: seq<bool>, size: int, i: int)
    requires size > 0 && |s| == size * size && 0 <= i < |s|
    ensures Press(Press(s, size, i), size, i) == s
  {
    var t := Press(Press(s, size, i), size, i);
    forall j | 0 <= j < |s| ensures t[j] == s[j] {
      PressAt(s, size, i, j);
      PressAt(Press(s, size, i), size, i, j);
    }
  }

  /** Every move of `ms` is a cell of the board. */
  predicate ValidMoves(size: int, ms: seq<int>)
  {
    forall k :: 0 <= k < |ms| ==> 0 <= ms[k] < size * size
  }

  /** The board after pressing the cells of `ms` in order. */
  function PressAll(s: seq<bool>, size: int, ms: seq<int>): (t: seq<bool>)
    requires size > 0 && |s| == size * size && ValidMoves(size, ms)
    ensures |t| == |s|
    decreases |ms|
  {
    if |ms| == 0 then s
    else Press(PressAll(s, size, ms[..|ms| - 1]), size, ms[|ms| - 1])
  }

  /** How many moves of `ms` affect cell `j`. */
  function CountAffecting(size: int, ms: seq<int>, j: int): nat
    requires size > 0
    decreases |ms|
  {
    if |ms| == 0 then 0
    else CountAffecting(size, ms[..|ms| - 1], j) + (if AffectedBy(size, ms[|ms| - 1], j) then 1 else 0)
  }

  /** A cell ends up flipped exactly when an odd number of the moves affect it,
      whatever their order. */
  lemma {:induction false} PressAllAt(s: seq<bool>, size: int, ms: seq<int>, j: int)
    requires size > 0 && |s| == size * size && ValidMoves(size, ms) && 0 <= j < |s|
    ensures PressAll(s, size, ms)[j] == (s[j] != Odd(CountAffecting(size, ms, j)))
    decreases |ms|
  {
    if |ms| > 0 {
      var ms', i := ms[..|ms| - 1], ms[|ms| - 1];
      var t := PressAll(s, size, ms');
      assert PressAll(s, size, ms) == Press(t, size, i);
      var n := CountAffecting(size, ms', j);
      assert CountAffecting(size, ms, j) == n + if AffectedBy(size, i, j) then 1 else 0;
      PressAllAt(s, size, ms', j);
      PressAt(t, size, i, j);
      OddStep(n);
    }
  }

  lemma OddStep(n: nat)
    ensures Odd(n + 1) == !Odd(n)
  {
  }

  /** `isWin()`: `state.every(v => !v)`. */
  function IsWin(s: seq<bool>): (won: bool)
    ensures won <==> forall k :: 0 <= k < |s| ==> !s[k]
  {
    |s| == 0 || (!s[0] && IsWin(s[1..]))
  }

  /** The win test accepts the all-off board and nothing else. */
  lemma IsWinIffAllOff(s: seq<bool>)
    ensures IsWin(s) <==> s == AllOff(|s|)
  {
    if IsWin(s) {
      assert s == AllOff(|s|);
    }
  }

  /** A board some sequence of valid presses turns all off. */
  ghost predicate Solvable(size: int, s: seq<bool>)
    requires size > 0 && |s| == size * size
  {
    exists ms :: ValidMoves(size, ms) && IsWin(PressAll(s, size, ms))
  }

  /** The board `shuffle` produces is turned off by replaying its own random presses. */
  lemma ReplaySolvesShuffle(size: int, picks: seq<int>)
    requires size > 0 && ValidMoves(size, picks)
    ensures IsWin(PressAll(PressAll(AllOff(size * size), size, picks), size, picks))
  {
    var z := AllOff(size * size);
    var s := PressAll(z, size, picks);
    var t := PressAll(s, size, picks);
    forall j | 0 <= j < |t| ensures !t[j] {
      PressAllAt(z, size, picks, j);
      PressAllAt(s, size, picks, j);
    }
  }

  /** Hence every shuffled board is solvable. */
  lemma ShuffleIsSolvable(size: int, picks: seq<int>)
    requires size > 0 && ValidMoves(size, picks)
    ensures Solvable(size, PressAll(AllOff(size * size), size, picks))
  {
    ReplaySolvesShuffle(size, picks);
  }

  /** The lowest-indexed ON cell, or `|s|` when all are off. */
  function FirstOn(s: seq<bool>): (k: nat)
    ensures k <= |s| && forall j :: 0 <= j < k ==> !s[j]
    ensures k < |s| ==> s[k]
  {
    if |s| == 0 then 0
    else if s[0] then 0
    else 1 + FirstOn(s[1..])
  }

  /** The cell `showHint` highlights: the one below the first ON cell, wrapping from the
      last row to the first; no hint on a won board. */
  function HintTarget(size: int, s: seq<bool>): (h: Option<int>)
    requires size > 0 && |s| == size * size
    ensures h.None? <==> IsWin(s)
    ensures h.Some? ==> 0 <= h.value < |s|
  {
    if IsWin(s) then None
    else
      var pos := GetRC(size, FirstOn(s));
      var r := Rem(pos.r + 1, size);
      IndexInRange(size, r, pos.c);
      Some(Idx(size, r, pos.c))
  }

  /** The hint sits in the column of the first ON cell, one row further down (modulo the size). */
  lemma HintIsBelowFirstOn(size: int, s: seq<bool>)
    requires size > 0 && |s| == size * size && !IsWin(s)
    ensures var k := FirstOn(s);
            k < |s| && s[k] &&
            HintTarget(size, s) == Some(Idx(size, (k / size + 1) % size, k % size))
  {
  }

  /** Outside the last row, the hint is the cell directly below the first ON cell. */
  lemma HintInNextRow(size: int, s: seq<bool>)
    requires size > 0 && |s| == size * size && !IsWin(s)
    requires FirstOn(s) / size < size - 1
    ensures HintTarget(size, s) == Some(Idx(size, FirstOn(s) / size + 1, FirstOn(s) % size))
  {
    var k := FirstOn(s);
    HintIsBelowFirstOn(size, s);
    ModOfSmall(k / size + 1, size);
  }

  /** Pressing the cell below cell `k` affects no cell before `k`, and affects `k`. */
  lemma BelowAffectsNothingEarlier(size: int, k: int, j: int)
    requires size > 0 && 0 <= j <= k && k / size < size - 1
    ensures AffectedBy(size, Idx(size, k / size + 1, k % size), j) <==> j == k
  {
    var r, c := k / size, k % size;
    DivModOfIndex(size, r + 1, c);
    RowMonotone(size, j, k);
    if j / size == r {
      SameRowIndex(size, j, k);
    }
  }

  /** Two indices in the same row are equal exactly when their columns are. */
  lemma SameRowIndex(size: int, i: int, j: int)
    requires size > 0 && i / size == j / size
    ensures i == j <==> i % size == j % size
  {
  }

  /** Following a hint that is not in the wrap-around row switches the first ON cell off
      and leaves every earlier cell off: the "chase the lights down" strategy. */
  lemma FollowingHintClearsFirstOn(size: int, s: seq<bool>)
    requires size > 0 && |s| == size * size && !IsWin(s)
    requires FirstOn(s) / size < size - 1
    ensures var t := Press(s, size, HintTarget(size, s).value);
            forall j :: 0 <= j <= FirstOn(s) ==> !t[j]
  {
    var k := FirstOn(s);
    HintInNextRow(size, s);
    var h := Idx(size, k / size + 1, k % size);
    forall j | 0 <= j <= k ensures !Press(s, size, h)[j] {
      PressBelowAt(s, size, k, j);
    }
  }

  /** Pressing the cell below the first ON cell `k` clears every cell up to `k`. */
  lemma PressBelowAt(s: seq<bool>, size: int, k: int, j: int)
    requires size > 0 && |s| == size * size && 0 <= j <= k < |s| && k / size < size - 1
    requires s[k] && forall i :: 0 <= i < k ==> !s[i]
    ensures 0 <= Idx(size, k / size + 1, k % size) < |s|
    ensures !Press(s, size, Idx(size, k / size + 1, k % size))[j]
  {
    RowColInRange(size, k);
    IndexInRange(size, k / size + 1, k % size);
    var h := Idx(size, k / size + 1, k % size);
    PressAt(s, size, h, j);
    BelowAffectsNothingEarlier(size, k, j);
  }
}
