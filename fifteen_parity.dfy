/** Why the solvability test of 05-fifteen/src/main.js is an invariant of play:
    sliding a tile never changes the answer of `isSolvable`. A horizontal slide
    leaves the non-blank tiles in the same order and the blank on the same row;
    a vertical slide moves one tile past `size - 1` others, which changes the
    inversion count by an amount of the parity of `size - 1`, and moves the
    blank one row. */
module FifteenParity {
  import opened Js
  import opened RowMajor
  import opened FifteenBoard

  /** The out-of-order pairs with the first element in `x` and the second in `y`. */
  function Cross(x: seq<int>, y: seq<int>): nat
  {
    if |x| == 0 then 0 else CountBelow(x[0], y) + Cross(x[1..], y)
  }

  lemma {:induction false} CountBelowAppend(x: int, a: seq<int>, b: seq<int>)
    ensures CountBelow(x, a + b) == CountBelow(x, a) + CountBelow(x, b)
    decreases |b|
  {
    if |b| == 0 {
      assert a + b == a;
    } else {
      assert (a + b)[..|a + b| - 1] == a + b[..|b| - 1];
      CountBelowAppend(x, a, b[..|b| - 1]);
    }
  }

  lemma {:induction false} CrossAppendRight(x: seq<int>, a: seq<int>, b: seq<int>)
    ensures Cross(x, a + b) == Cross(x, a) + Cross(x, b)
    decreases |x|
  {
    if |x| > 0 {
      CrossAppendRight(x[1..], a, b);
      CountBelowAppend(x[0], a, b);
    }
  }

  /** The inversions of a concatenation: those inside each part and those across. */
  lemma {:induction false} InversionsAppend(x: seq<int>, y: seq<int>)
    ensures Inversions(x + y) == Inversions(x) + Inversions(y) + Cross(x, y)
    decreases |x|
  {
    if |x| == 0 {
      assert x + y == y;
    } else {
      assert (x + y)[0] == x[0];
      assert (x + y)[1..] == x[1..] + y;
      InversionsAppend(x[1..], y);
      CountBelowAppend(x[0], x[1..], y);
    }
  }

  lemma SingletonBelow(x: int, b: int)
    ensures CountBelow(x, [b]) == if x > b then 1 else 0
  {
    assert [b][..0] == [];
  }

  /** Every element of `m` other than `b` is either below or above it. */
  lemma {:induction false} BelowPlusAbove(b: int, m: seq<int>)
    requires b !in m
    ensures CountBelow(b, m) + Cross(m, [b]) == |m|
    decreases |m|
  {
    if |m| > 0 {
      BelowPlusAbove(b, m[1..]);
      assert m == [m[0]] + m[1..];
      CountBelowAppend(b, [m[0]], m[1..]);
      SingletonBelow(b, m[0]);
      SingletonBelow(m[0], b);
    }
  }

  /** Moving `x` from the front of `m + q` to just after `m` changes the inversion
      count by an amount of the parity of `|m|`. */
  lemma MoveAcrossFront(x: int, m: seq<int>, q: seq<int>)
    requires x !in m
    ensures (Inversions([x] + m + q) + Inversions(m + [x] + q) + |m|) % 2 == 0
  {
    FrontInversions(x, m, q);
    MiddleInversions(x, m, q);
    BelowPlusAbove(x, m);
  }

  /** The inversions of `[x] + m + q`, piece by piece. */
  lemma FrontInversions(x: int, m: seq<int>, q: seq<int>)
    ensures Inversions([x] + m + q)
            == CountBelow(x, m) + CountBelow(x, q) + Inversions(m) + Inversions(q) + Cross(m, q)
  {
    var front := [x] + m + q;
    assert front[0] == x && front[1..] == m + q;
    CountBelowAppend(x, m, q);
    InversionsAppend(m, q);
  }

  /** The inversions of `m + [x] + q`, piece by piece. */
  lemma MiddleInversions(x: int, m: seq<int>, q: seq<int>)
    ensures Inversions(m + [x] + q)
            == Inversions(m) + CountBelow(x, q) + Inversions(q) + Cross(m, [x]) + Cross(m, q)
  {
    var tail := [x] + q;
    assert m + [x] + q == m + tail;
    InversionsAppend(m, tail);
    assert tail[0] == x && tail[1..] == q;
    CrossAppendRight(m, [x], q);
  }

  /** The pairs across a prefix `p` do not depend on the order of what follows it. */
  lemma CrossMove(p: seq<int>, x: int, m: seq<int>, q: seq<int>)
    ensures Cross(p, [x] + m + q) == Cross(p, m + [x] + q)
  {
    CrossAppendRight(p, [x] + m, q);
    CrossAppendRight(p, m + [x], q);
    CrossAppendRight(p, [x], m);
    CrossAppendRight(p, m, [x]);
  }

  /** Moving `x` past the block `m` changes the inversion count by an amount of the
      parity of `|m|`. */
  lemma MoveAcross(p: seq<int>, x: int, m: seq<int>, q: seq<int>)
    requires x !in m
    ensures (Inversions(p + [x] + m + q) + Inversions(p + m + [x] + q) + |m|) % 2 == 0
  {
    PrefixFront(p, x, m, q);
    PrefixBack(p, x, m, q);
    CrossMove(p, x, m, q);
    MoveAcrossFront(x, m, q);
  }

  lemma PrefixFront(p: seq<int>, x: int, m: seq<int>, q: seq<int>)
    ensures Inversions(p + [x] + m + q)
            == Inversions(p) + Inversions([x] + m + q) + Cross(p, [x] + m + q)
  {
    assert p + [x] + m + q == p + ([x] + m + q);
    InversionsAppend(p, [x] + m + q);
  }

  lemma PrefixBack(p: seq<int>, x: int, m: seq<int>, q: seq<int>)
    ensures Inversions(p + m + [x] + q)
            == Inversions(p) + Inversions(m + [x] + q) + Cross(p, m + [x] + q)
  {
    assert p + m + [x] + q == p + (m + [x] + q);
    InversionsAppend(p, m + [x] + q);
  }

  lemma NonBlankSingleton(x: int)
    ensures NonBlank([x]) == if x == 0 then [] else [x]
  {
    assert [x][1..] == [];
  }

  /** The non-blank tiles of a board cut into five pieces. */
  lemma NonBlankFive(p: seq<int>, x: int, m: seq<int>, y: int, q: seq<int>)
    ensures NonBlank(p + [x] + m + [y] + q)
            == NonBlank(p) + NonBlank([x]) + NonBlank(m) + NonBlank([y]) + NonBlank(q)
  {
    NonBlankAppend(p + [x] + m + [y], q);
    NonBlankAppend(p + [x] + m, [y]);
    NonBlankAppend(p + [x], m);
    NonBlankAppend(p, [x]);
  }

  /** The non-blank tiles when the blank is just before a block `m` of tiles
      followed by the tile `x`. */
  lemma BlankFirst(p: seq<int>, m: seq<int>, x: int, q: seq<int>)
    requires x != 0 && forall k :: 0 <= k < |m| ==> m[k] != 0
    ensures NonBlank(p + [0] + m + [x] + q) == NonBlank(p) + m + [x] + NonBlank(q)
  {
    var bp, bq := NonBlank(p), NonBlank(q);
    assert NonBlank(p + [0] + m + [x] + q) == bp + [] + m + [x] + bq by {
      NonBlankFive(p, 0, m, x, q);
      NonBlankSingleton(0);
      NonBlankSingleton(x);
      NoBlanks(m);
    }
    assert bp + [] + m + [x] + bq == bp + m + [x] + bq;
  }

  /** The non-blank tiles when the tile `x` is followed by a block `m` of tiles
      and then the blank. */
  lemma BlankLast(p: seq<int>, x: int, m: seq<int>, q: seq<int>)
    requires x != 0 && forall k :: 0 <= k < |m| ==> m[k] != 0
    ensures NonBlank(p + [x] + m + [0] + q) == NonBlank(p) + [x] + m + NonBlank(q)
  {
    var bp, bq := NonBlank(p), NonBlank(q);
    assert NonBlank(p + [x] + m + [0] + q) == bp + [x] + m + [] + bq by {
      NonBlankFive(p, x, m, 0, q);
      NonBlankSingleton(0);
      NonBlankSingleton(x);
      NoBlanks(m);
    }
    assert bp + [x] + m + [] + bq == bp + [x] + m + bq;
  }

  /** The blank at one end of a block `m` of tiles and the tile `x` at the other,
      exchanged: the inversion count changes by an amount of the parity of `|m|`. */
  lemma ParityBlankFirst(p: seq<int>, m: seq<int>, x: int, q: seq<int>)
    requires x != 0 && forall k :: 0 <= k < |m| ==> m[k] != 0 && m[k] != x
    ensures SameParity(p + [0] + m + [x] + q, p + [x] + m + [0] + q, |m|)
  {
    BlankFirst(p, m, x, q);
    BlankLast(p, x, m, q);
    assert x !in m;
    MoveAcross(NonBlank(p), x, m, NonBlank(q));
  }

  /** The block `m` holds neither the blank nor the tiles `a` and `b`. */
  predicate BlockAvoids(m: seq<int>, a: int, b: int)
  {
    forall k :: 0 <= k < |m| ==> m[k] != 0 && m[k] != a && m[k] != b
  }

  /** In a permutation with the blank at `i` or `j`, the cells strictly between
      them hold neither the blank nor the values at the two ends. */
  lemma PermutationBlock(s: seq<int>, n: nat, i: int, j: int)
    requires IsPermutation(s, n) && 0 <= i < j < n && (s[i] == 0 || s[j] == 0)
    ensures (s[i] == 0) != (s[j] == 0)
    ensures BlockAvoids(s[i + 1..j], s[i], s[j])
  {
    var m := s[i + 1..j];
    forall k | 0 <= k < |m| ensures m[k] != 0 && m[k] != s[i] && m[k] != s[j] {
      assert m[k] == s[i + 1 + k];
      assert i < i + 1 + k < j;
    }
  }

  /** `s'` is `s` with cells `i` and `j` exchanged, described cell by cell. */
  predicate Exchanged(s: seq<int>, s': seq<int>, i: int, j: int)
    requires 0 <= i < |s| && 0 <= j < |s|
  {
    |s'| == |s| && s'[i] == s[j] && s'[j] == s[i]
    && forall k :: 0 <= k < |s| && k != i && k != j ==> s'[k] == s[k]
  }

  /** Exchanging the blank at one end of `s[i..j+1]` with the tile at the other end
      changes the inversion count of the non-blank tiles by an amount of the parity
      of `j - i - 1`, when the cells between them hold neither the blank nor that tile. */
  lemma SwapWithBlankParity(s: seq<int>, s': seq<int>, i: int, j: int, d: int)
    requires 0 <= i < j < |s| && (s[i] == 0) != (s[j] == 0)
    requires BlockAvoids(s[i + 1..j], s[i], s[j]) && Exchanged(s, s', i, j)
    requires d == j - i - 1
    ensures SameParity(s, s', d)
  {
    var p, a, m, b, q := Cut(s, s', i, j);
    CutParity(s, s', p, a, m, b, q, d);
  }

  /** The pieces of a board around cells `i < j`, and of its exchange of those cells. */
  lemma Cut(s: seq<int>, s': seq<int>, i: int, j: int)
      returns (p: seq<int>, a: int, m: seq<int>, b: int, q: seq<int>)
    requires 0 <= i < j < |s| && (s[i] == 0) != (s[j] == 0)
    requires BlockAvoids(s[i + 1..j], s[i], s[j]) && Exchanged(s, s', i, j)
    ensures s == p + [a] + m + [b] + q && s' == p + [b] + m + [a] + q
    ensures |m| == j - i - 1 && (a == 0) != (b == 0) && BlockAvoids(m, a, b)
  {
    p, a, m, b, q := s[..i], s[i], s[i + 1..j], s[j], s[j + 1..];
    assert s == p + [a] + m + [b] + q;
    assert s' == p + [b] + m + [a] + q;
  }

  /** The parity of an exchange of the blank with a tile, for two boards given as the pieces. */
  lemma CutParity(u: seq<int>, u': seq<int>, p: seq<int>, a: int, m: seq<int>, b: int, q: seq<int>, d: int)
    requires u == p + [a] + m + [b] + q && u' == p + [b] + m + [a] + q && d == |m|
    requires (a == 0) != (b == 0) && BlockAvoids(m, a, b)
    ensures SameParity(u, u', d)
  {
    if a == 0 {
      ParityBlankFirst(p, m, b, q);
    } else {
      ParityBlankFirst(p, m, a, q);
    }
  }

  /** The inversion counts of the tiles of `s` and `s'` differ by an amount of
      the parity of `d`. */
  predicate SameParity(s: seq<int>, s': seq<int>, d: int)
  {
    ParitySum(s, s', d) % 2 == 0
  }

  function ParitySum(s: seq<int>, s': seq<int>, d: int): int
  {
    Inversions(NonBlank(s)) + Inversions(NonBlank(s')) + d
  }

  /** Two adjacent cells are next to each other in the array (same row) or `size`
      apart (same column, neighbouring rows). */
  lemma SlideGeometry(size: int, t: int, e: int)
    requires size > 0 && 0 <= t < size * size && 0 <= e < size * size
    requires CanSlide(size, t, e)
    ensures FloorDiv(t, size) == FloorDiv(e, size) ==> Abs(t - e) == 1
    ensures FloorDiv(t, size) != FloorDiv(e, size) ==>
              Abs(t - e) == size && Abs(FloorDiv(t, size) - FloorDiv(e, size)) == 1
  {
    var p, q := IndexToRC(size, t), IndexToRC(size, e);
    IndexRoundTrip(size, t);
    IndexRoundTrip(size, e);
    if p.r == q.r + 1 {
      NextRow(size, q.r);
    } else if q.r == p.r + 1 {
      NextRow(size, p.r);
    }
  }

  lemma NextRow(size: int, r: int)
    ensures (r + 1) * size == r * size + size
  {
  }

  /** The parity bookkeeping: the inversion parity flips with `d` and the blank row
      moves with it on even widths, so the verdict of the test is the same. */
  lemma ParityStep(size: int, inv: int, inv': int, d: int, row: int, row': int)
    requires size > 0 && (inv + inv' + d) % 2 == 0
    requires (d == 0 && row == row') || (d == size - 1 && (row' == row + 1 || row' == row - 1))
    ensures (size % 2 == 1 ==> (inv % 2 == 0 <==> inv' % 2 == 0))
    ensures (size % 2 == 0 ==> ((inv % 2 == 1 <==> row % 2 == 0) <==> (inv' % 2 == 1 <==> row' % 2 == 0)))
  {
  }

  /** A slide changes neither the answer of `isSolvable` nor its converse: the
      board before is solvable exactly when the board after is. */
  lemma SlidePreservesSolvable(size: int, s: seq<int>, t: int)
    requires size > 0 && IsPermutation(s, size * size) && 0 <= t < |s|
    requires SlideResult(size, s, t).Some?
    ensures IsSolvable(size, SlideResult(size, s, t).value) <==> IsSolvable(size, s)
  {
    var e := IndexOf(s, 0);
    var s' := SlideResult(size, s, t).value;
    SlideParity(size, s, t, e, s');
    SlideRows(size, s, t, e, s');
    SolvableVerdict(size, s, s', Abs(t - e) - 1);
  }

  /** A slide exchanges the blank with a tile `d + 1` cells away, across `d` tiles. */
  lemma SlideParity(size: int, s: seq<int>, t: int, e: int, s': seq<int>)
    requires size > 0 && IsPermutation(s, size * size) && 0 <= t < |s|
    requires SlideResult(size, s, t).Some?
    requires e == IndexOf(s, 0) && s' == SlideResult(size, s, t).value
    ensures SameParity(s, s', Abs(t - e) - 1)
  {
    var i, j := SlideEnds(size, s, t, e, s');
    SwapWithBlankParity(s, s', i, j, Abs(t - e) - 1);
  }

  /** The two cells a slide exchanges, in increasing order. */
  lemma SlideEnds(size: int, s: seq<int>, t: int, e: int, s': seq<int>) returns (i: int, j: int)
    requires size > 0 && IsPermutation(s, size * size) && 0 <= t < |s|
    requires SlideResult(size, s, t).Some?
    requires e == IndexOf(s, 0) && s' == SlideResult(size, s, t).value
    ensures 0 <= i < j < |s| && j - i == Abs(t - e)
    ensures (s[i] == 0) != (s[j] == 0) && BlockAvoids(s[i + 1..j], s[i], s[j])
    ensures Exchanged(s, s', i, j)
  {
    i, j := if t < e then t else e, if t < e then e else t;
    SwapOthers(s, t, e);
    PermutationBlock(s, size * size, i, j);
  }

  /** A horizontal slide crosses no tile and keeps the blank's row; a vertical one
      crosses `size - 1` tiles and moves the blank to a neighbouring row. */
  lemma SlideRows(size: int, s: seq<int>, t: int, e: int, s': seq<int>)
    requires size > 0 && IsPermutation(s, size * size) && 0 <= t < |s|
    requires SlideResult(size, s, t).Some?
    requires e == IndexOf(s, 0) && s' == SlideResult(size, s, t).value
    ensures StepShape(size, Abs(t - e) - 1, BlankRowFromBottom(size, s), BlankRowFromBottom(size, s'))
  {
    SlideMovesTileIntoBlank(size, s, t);
    SlideGeometry(size, t, e);
    RowsOfGap(size, Abs(t - e), FloorDiv(t, size), FloorDiv(e, size),
              BlankRowFromBottom(size, s), BlankRowFromBottom(size, s'));
  }

  lemma RowsOfGap(size: int, gap: int, rt: int, re: int, row: int, row': int)
    requires rt == re ==> gap == 1
    requires rt != re ==> gap == size && Abs(rt - re) == 1
    requires row == size - re && row' == size - rt
    ensures StepShape(size, gap - 1, row, row')
  {
  }

  /** Either no tile is crossed and the blank stays on its row, or `size - 1` tiles
      are crossed and the blank moves to a neighbouring row. */
  predicate StepShape(size: int, d: int, row: int, row': int)
  {
    (d == 0 && row == row') || (d == size - 1 && (row' == row + 1 || row' == row - 1))
  }

  /** The verdicts of the test on two boards agree when their inversion counts differ
      by the parity of `d` and either `d` is zero and the blank rows agree, or `d` is
      `size - 1` and the blank rows are neighbours. */
  lemma SolvableVerdict(size: int, s: seq<int>, s': seq<int>, d: int)
    requires size > 0 && SameParity(s, s', d)
    requires StepShape(size, d, BlankRowFromBottom(size, s), BlankRowFromBottom(size, s'))
    ensures IsSolvable(size, s') <==> IsSolvable(size, s)
  {
    IsSolvableCases(size, s);
    IsSolvableCases(size, s');
    ParityStep(size, Inversions(NonBlank(s)), Inversions(NonBlank(s')), d,
               BlankRowFromBottom(size, s), BlankRowFromBottom(size, s'));
  }
}
