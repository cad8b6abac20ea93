/** The sliding puzzle of 05-fifteen/src/main.js as values: a row-major board
    holding a permutation of 0 .. n-1 (n = size * size, 0 the blank), the
    index helpers, the solved layout, the inversion count and the solvability
    test, sliding, the arrow-key mapping and the Fisher-Yates rounds of the
    shuffle. The game object built on them is in module Fifteen. */
module FifteenBoard {
  import opened Js
  import opened RowMajor

  /** The `{r, c}` record of `indexToRC`. */
  datatype RC = RC(r: int, c: int)

  /** `indexToRC(i)`. */
  function IndexToRC(size: int, i: int): RC
    requires size > 0
  {
    RC(FloorDiv(i, size), Rem(i, size))
  }

  /** `rcToIndex(r, c)`. */
  function RcToIndex(size: int, r: int, c: int): int
  {
    r * size + c
  }

  /** Converting an index on the board to a row and column and back gives the index. */
  lemma IndexRoundTrip(size: int, i: int)
    requires size > 0 && 0 <= i < size * size
    ensures var p := IndexToRC(size, i);
            0 <= p.r < size && 0 <= p.c < size && RcToIndex(size, p.r, p.c) == i
  {
    RowColInRange(size, i);
  }

  /** Converting an on-board row and column to an index and back gives them. */
  lemma CellRoundTrip(size: int, r: int, c: int)
    requires 0 <= r < size && 0 <= c < size
    ensures 0 <= RcToIndex(size, r, c) < size * size
    ensures IndexToRC(size, RcToIndex(size, r, c)) == RC(r, c)
  {
    IndexInRange(size, r, c);
    DivModOfIndex(size, r, c);
  }

  /** `canSlide(t, e)`: the two cells are orthogonally adjacent. */
  function CanSlide(size: int, t: int, e: int): bool
    requires size > 0
  {
    var p := IndexToRC(size, t);
    var q := IndexToRC(size, e);
    Abs(p.r - q.r) + Abs(p.c - q.c) == 1
  }

  /** The keys the keydown handler distinguishes. */
  datatype Key = ArrowUp | ArrowDown | ArrowLeft | ArrowRight | OtherKey

  /** The keydown handler's choice of tile to slide into the blank at `empty`:
      ArrowUp moves the tile below the blank up, and so on. */
  function ArrowTarget(size: int, key: Key, empty: int): Option<int>
    requires size > 0
  {
    var p := IndexToRC(size, empty);
    if key == ArrowUp && p.r < size - 1 then Some(RcToIndex(size, p.r + 1, p.c))
    else if key == ArrowDown && p.r > 0 then Some(RcToIndex(size, p.r - 1, p.c))
    else if key == ArrowLeft && p.c < size - 1 then Some(RcToIndex(size, p.r, p.c + 1))
    else if key == ArrowRight && p.c > 0 then Some(RcToIndex(size, p.r, p.c - 1))
    else None
  }

  /** Every tile an arrow key picks is on the board and can slide into the blank. */
  lemma ArrowTargetCanSlide(size: int, key: Key, empty: int)
    requires size > 0 && 0 <= empty < size * size
    ensures var t := ArrowTarget(size, key, empty);
            t.Some? ==> 0 <= t.value < size * size && CanSlide(size, t.value, empty)
  {
    var p := IndexToRC(size, empty);
    IndexRoundTrip(size, empty);
    var t := ArrowTarget(size, key, empty);
    if t.Some? {
      var q := if key == ArrowUp then RC(p.r + 1, p.c)
               else if key == ArrowDown then RC(p.r - 1, p.c)
               else if key == ArrowLeft then RC(p.r, p.c + 1)
               else RC(p.r, p.c - 1);
      assert t.value == RcToIndex(size, q.r, q.c);
      CellRoundTrip(size, q.r, q.c);
    }
  }

  /** Conversely, every tile that can slide into the blank is picked by some arrow key. */
  lemma EverySlideHasKey(size: int, t: int, empty: int) returns (key: Key)
    requires size > 0 && 0 <= t < size * size && 0 <= empty < size * size
    requires CanSlide(size, t, empty)
    ensures ArrowTarget(size, key, empty) == Some(t)
  {
    var p, q := IndexToRC(size, t), IndexToRC(size, empty);
    IndexRoundTrip(size, t);
    IndexRoundTrip(size, empty);
    if p.r == q.r + 1 {
      key := ArrowUp;
    } else if p.r == q.r - 1 {
      key := ArrowDown;
    } else if p.c == q.c + 1 {
      key := ArrowLeft;
    } else {
      key := ArrowRight;
    }
  }

  /** The solved layout `[1, 2, ..., n-1, 0]`. */
  function SolvedBoard(n: nat): (s: seq<int>)
    ensures |s| == n
    ensures forall i :: 0 <= i < n - 1 ==> s[i] == i + 1
    ensures n > 0 ==> s[n - 1] == 0
  {
    seq(n, i => if i + 1 < n then i + 1 else 0)
  }

  /** The solved layout is what `Array.from` builds with `(i + 1) % n`. */
  lemma SolvedBoardModular(n: nat)
    ensures forall i :: 0 <= i < n ==> SolvedBoard(n)[i] == (i + 1) % n
  {
    forall i | 0 <= i < n ensures SolvedBoard(n)[i] == (i + 1) % n {
      if i + 1 < n {
        ModOfSmall(i + 1, n);
      }
    }
  }

  /** What `isSolved` / `isSolvedArray` accept. */
  predicate IsSolvedLayout(s: seq<int>)
  {
    |s| > 0 && s == SolvedBoard(|s|)
  }

  /** A board of `n` cells holding each of 0 .. n-1 once. */
  predicate IsPermutation(s: seq<int>, n: nat)
  {
    && |s| == n
    && (forall i :: 0 <= i < n ==> 0 <= s[i] < n)
    && (forall i, j :: 0 <= i < j < n ==> s[i] != s[j])
    && (forall v :: 0 <= v < n ==> v in s)
  }

  /** In a permutation a value sits at exactly one place. */
  lemma PermutationPosition(s: seq<int>, n: nat, k: int)
    requires IsPermutation(s, n) && 0 <= k < n
    ensures IndexOf(s, s[k]) == k
  {
  }

  lemma SolvedIsPermutation(n: nat)
    ensures IsPermutation(SolvedBoard(n), n)
  {
    var s := SolvedBoard(n);
    forall v | 0 <= v < n ensures v in s {
      var k := if v == 0 then n - 1 else v - 1;
      assert s[k] == v;
    }
  }

  /** `arr.filter(v => v !== 0)`. */
  function NonBlank(s: seq<int>): (t: seq<int>)
    ensures |t| <= |s|
  {
    if |s| == 0 then []
    else if s[0] == 0 then NonBlank(s[1..])
    else [s[0]] + NonBlank(s[1..])
  }

  /** The filter keeps exactly the non-zero values. */
  lemma {:induction false} NonBlankMembers(s: seq<int>, x: int)
    ensures x in NonBlank(s) <==> x in s && x != 0
  {
    if |s| > 0 {
      NonBlankMembers(s[1..], x);
      assert s == [s[0]] + s[1..];
    }
  }

  /** How many elements of `b` are smaller than `x`. */
  function CountBelow(x: int, b: seq<int>): nat
    ensures CountBelow(x, b) <= |b|
    decreases |b|
  {
    if |b| == 0 then 0
    else CountBelow(x, b[..|b| - 1]) + (if x > b[|b| - 1] then 1 else 0)
  }

  /** The number of out-of-order pairs of `a`: each element against those after it. */
  function Inversions(a: seq<int>): nat
  {
    if |a| == 0 then 0 else CountBelow(a[0], a[1..]) + Inversions(a[1..])
  }

  /** The out-of-order pairs themselves. */
  function InversionPairs(a: seq<int>): set<(int, int)>
  {
    set i, j | 0 <= i < j < |a| && a[i] > a[j] :: (i, j)
  }

  /** The out-of-order pairs whose first element is `a[0]`. */
  function FirstRow(a: seq<int>): set<(int, int)>
    requires |a| > 0
  {
    set j | 1 <= j < |a| && a[0] > a[j] :: (0, j)
  }

  /** The pairs of `b[..m]` below `x`, numbered as positions after `x`. */
  function RowUpTo(x: int, b: seq<int>, m: nat): set<(int, int)>
    requires m <= |b|
  {
    set j | 0 <= j < m && x > b[j] :: (0, j + 1)
  }

  /** Every pair moved one place to the right. */
  function Shifted(q: set<(int, int)>): set<(int, int)>
  {
    set p | p in q :: (p.0 + 1, p.1 + 1)
  }

  lemma {:induction false} RowUpToCard(x: int, b: seq<int>, m: nat)
    requires m <= |b|
    ensures |RowUpTo(x, b, m)| == CountBelow(x, b[..m])
  {
    if m == 0 {
      assert RowUpTo(x, b, m) == {};
    } else {
      RowUpToCard(x, b, m - 1);
      assert b[..m][..m - 1] == b[..m - 1];
      RowUpToStep(x, b, m);
    }
  }

  lemma RowUpToStep(x: int, b: seq<int>, m: nat)
    requires 0 < m <= |b|
    ensures RowUpTo(x, b, m) == RowUpTo(x, b, m - 1) + (if x > b[m - 1] then {(0, m)} else {})
    ensures (0, m) !in RowUpTo(x, b, m - 1)
  {
  }

  lemma {:induction false} ShiftedCard(q: set<(int, int)>)
    ensures |Shifted(q)| == |q|
    decreases |q|
  {
    if q != {} {
      var x :| x in q;
      var rest := q - {x};
      ShiftedCard(rest);
      assert Shifted(q) == Shifted(rest) + {(x.0 + 1, x.1 + 1)};
      assert (x.0 + 1, x.1 + 1) !in Shifted(rest);
    }
  }

  /** The pairs of `a` are those starting at `a[0]` and those of `a[1..]` shifted by one. */
  lemma PairsSplit(a: seq<int>)
    requires |a| > 0
    ensures InversionPairs(a) == FirstRow(a) + Shifted(InversionPairs(a[1..]))
    ensures FirstRow(a) * Shifted(InversionPairs(a[1..])) == {}
  {
    PairsInSplit(a);
    SplitInPairs(a);
    SplitDisjoint(a);
  }

  lemma PairsInSplit(a: seq<int>)
    requires |a| > 0
    ensures InversionPairs(a) <= FirstRow(a) + Shifted(InversionPairs(a[1..]))
  {
    var t := a[1..];
    forall i, j | 0 <= i < j < |a| && a[i] > a[j]
      ensures (i, j) in FirstRow(a) + Shifted(InversionPairs(t))
    {
      if i > 0 {
        ShiftedPair(a, i, j);
      }
    }
  }

  lemma ShiftedPair(a: seq<int>, i: int, j: int)
    requires 0 < i < j < |a| && a[i] > a[j]
    ensures (i, j) in Shifted(InversionPairs(a[1..]))
  {
    var t := a[1..];
    assert t[i - 1] == a[i] && t[j - 1] == a[j];
    var q := (i - 1, j - 1);
    assert q in InversionPairs(t);
    assert (i, j) == (q.0 + 1, q.1 + 1);
  }

  lemma SplitInPairs(a: seq<int>)
    requires |a| > 0
    ensures FirstRow(a) + Shifted(InversionPairs(a[1..])) <= InversionPairs(a)
  {
    var t := a[1..];
    forall q | q in InversionPairs(t) ensures (q.0 + 1, q.1 + 1) in InversionPairs(a) {
      var i, j :| 0 <= i < j < |t| && t[i] > t[j] && q == (i, j);
      assert a[i + 1] == t[i] && a[j + 1] == t[j];
    }
  }

  lemma SplitDisjoint(a: seq<int>)
    requires |a| > 0
    ensures FirstRow(a) * Shifted(InversionPairs(a[1..])) == {}
  {
    forall p | p in Shifted(InversionPairs(a[1..])) ensures p.0 >= 1 {
      var q :| q in InversionPairs(a[1..]) && p == (q.0 + 1, q.1 + 1);
    }
  }

  /** `Inversions` counts exactly the out-of-order pairs. */
  lemma {:induction false} InversionsCountPairs(a: seq<int>)
    ensures Inversions(a) == |InversionPairs(a)|
  {
    if |a| == 0 {
      assert InversionPairs(a) == {};
    } else {
      InversionsCountPairs(a[1..]);
      PairsSplit(a);
      ShiftedCard(InversionPairs(a[1..]));
      FirstRowCard(a);
    }
  }

  lemma FirstRowCard(a: seq<int>)
    requires |a| > 0
    ensures |FirstRow(a)| == CountBelow(a[0], a[1..])
  {
    assert FirstRow(a) == RowUpTo(a[0], a[1..], |a| - 1);
    RowUpToCard(a[0], a[1..], |a| - 1);
    assert a[1..][..|a| - 1] == a[1..];
  }

  /** An increasing sequence has no inversions. */
  lemma {:induction false} IncreasingHasNoInversions(a: seq<int>)
    requires forall i, j :: 0 <= i < j < |a| ==> a[i] < a[j]
    ensures Inversions(a) == 0
  {
    if |a| > 0 {
      IncreasingHasNoInversions(a[1..]);
      NoneBelow(a[0], a[1..]);
    }
  }

  lemma {:induction false} NoneBelow(x: int, b: seq<int>)
    requires forall k :: 0 <= k < |b| ==> x < b[k]
    ensures CountBelow(x, b) == 0
    decreases |b|
  {
    if |b| > 0 {
      NoneBelow(x, b[..|b| - 1]);
    }
  }

  /** The non-blank tiles of the solved board are 1 .. n-1 in order. */
  lemma NonBlankOfSolved(n: nat)
    requires n > 0
    ensures NonBlank(SolvedBoard(n)) == seq(n - 1, i => i + 1)
  {
    var s := SolvedBoard(n);
    NonBlankPrefix(s, n - 1);
    assert s == s[..n - 1] + [0];
    NonBlankAppend(s[..n - 1], [0]);
    assert s[..n - 1] == seq(n - 1, i => i + 1);
  }

  lemma {:induction false} NonBlankAppend(a: seq<int>, b: seq<int>)
    ensures NonBlank(a + b) == NonBlank(a) + NonBlank(b)
    decreases |a|
  {
    if |a| > 0 {
      assert (a + b)[1..] == a[1..] + b;
      NonBlankAppend(a[1..], b);
    } else {
      assert a + b == b;
    }
  }

  lemma NonBlankPrefix(s: seq<int>, k: nat)
    requires k <= |s| && forall i :: 0 <= i < k ==> s[i] != 0
    ensures NonBlank(s[..k]) == s[..k]
  {
    NoBlanks(s[..k]);
  }

  lemma {:induction false} NoBlanks(s: seq<int>)
    requires forall i :: 0 <= i < |s| ==> s[i] != 0
    ensures NonBlank(s) == s
  {
    if |s| > 0 {
      NoBlanks(s[1..]);
    }
  }

  /** `blankRowFromBottom(arr)`: the blank's row counted 1-based from the bottom. */
  function BlankRowFromBottom(size: int, s: seq<int>): int
    requires size > 0
  {
    var idx := IndexOf(s, 0);
    var rowFromTop := FloorDiv(idx, size);
    size - rowFromTop
  }

  /** `isSolvable(arr)`: the parity test for the sliding puzzle. */
  function IsSolvable(size: int, s: seq<int>): bool
    requires size > 0
  {
    var inv := Inversions(NonBlank(s));
    if Rem(size, 2) == 1 then Rem(inv, 2) == 0
    else if Rem(BlankRowFromBottom(size, s), 2) == 0 then Rem(inv, 2) == 1
    else Rem(inv, 2) == 0
  }

  /** On an odd width a board is solvable exactly when its inversion count is even;
      on an even width, exactly when the count is odd iff the blank is on an even row
      counted from the bottom. */
  lemma IsSolvableCases(size: int, s: seq<int>)
    requires size > 0
    ensures size % 2 == 1 ==> (IsSolvable(size, s) <==> Inversions(NonBlank(s)) % 2 == 0)
    ensures size % 2 == 0 ==>
              (IsSolvable(size, s) <==>
                 (Inversions(NonBlank(s)) % 2 == 1 <==> BlankRowFromBottom(size, s) % 2 == 0))
  {
    var b := BlankRowFromBottom(size, s);
    if b < 0 {
      assert Rem(b, 2) == -((-b) % 2);
    }
  }

  /** On the solved board the blank is on the bottom row. */
  lemma SolvedBlankRow(size: int)
    requires size > 0
    ensures BlankRowFromBottom(size, SolvedBoard(size * size)) == 1
  {
    var n := size * size;
    var s := SolvedBoard(n);
    assert IndexOf(s, 0) == n - 1;
    DivModOfIndex(size, size - 1, size - 1);
    assert (size - 1) * size + (size - 1) == n - 1;
  }

  /** The solved board has no inversions and passes the solvability test. */
  lemma SolvedIsSolvable(size: int)
    requires size > 0
    ensures Inversions(NonBlank(SolvedBoard(size * size))) == 0
    ensures IsSolvable(size, SolvedBoard(size * size))
  {
    var n := size * size;
    NonBlankOfSolved(n);
    IncreasingHasNoInversions(seq(n - 1, i => i + 1));
    SolvedBlankRow(size);
  }

  /** The board with cells `i` and `j` exchanged (`[a[i], a[j]] = [a[j], a[i]]`). */
  function Swap(s: seq<int>, i: int, j: int): (t: seq<int>)
    requires 0 <= i < |s| && 0 <= j < |s|
    ensures |t| == |s| && t[i] == s[j] && t[j] == s[i]
  {
    s[i := s[j]][j := s[i]]
  }

  /** A swap leaves every other cell as it was. */
  lemma SwapOthers(s: seq<int>, i: int, j: int)
    requires 0 <= i < |s| && 0 <= j < |s|
    ensures forall k :: 0 <= k < |s| && k != i && k != j ==> Swap(s, i, j)[k] == s[k]
  {
  }

  /** Swapping two cells keeps a permutation a permutation. */
  lemma SwapPermutation(s: seq<int>, n: nat, i: int, j: int)
    requires IsPermutation(s, n) && 0 <= i < n && 0 <= j < n
    ensures IsPermutation(Swap(s, i, j), n)
  {
    var t := Swap(s, i, j);
    forall a, b | 0 <= a < b < n ensures t[a] != t[b] {
      var a' := if a == i then j else if a == j then i else a;
      var b' := if b == i then j else if b == j then i else b;
      assert t[a] == s[a'] && t[b] == s[b'];
      if a' < b' {
        assert s[a'] != s[b'];
      } else {
        assert s[b'] != s[a'];
      }
    }
    forall v | 0 <= v < n ensures v in t {
      var k := IndexOf(s, v);
      var k' := if k == i then j else if k == j then i else k;
      assert t[k'] == v;
    }
  }

  /** The outcome of `slide(t)` on board `s`: the new board, or `None` when the
      clicked cell is the blank or is not next to it. */
  function SlideResult(size: int, s: seq<int>, t: int): (r: Option<seq<int>>)
    requires size > 0 && 0 <= t < |s| && 0 in s
    ensures r.None? <==> s[t] == 0 || !CanSlide(size, t, IndexOf(s, 0))
    ensures r.Some? ==> r.value == Swap(s, t, IndexOf(s, 0))
  {
    var e := IndexOf(s, 0);
    if s[t] == 0 then None
    else if !CanSlide(size, t, e) then None
    else Some(Swap(s, t, e))
  }

  /** A successful slide moves one tile into the blank and the blank into its place. */
  lemma SlideMovesTileIntoBlank(size: int, s: seq<int>, t: int)
    requires size > 0 && IsPermutation(s, size * size) && 0 <= t < |s|
    requires SlideResult(size, s, t).Some?
    ensures var s' := SlideResult(size, s, t).value;
            IsPermutation(s', size * size) && s'[t] == 0 && IndexOf(s', 0) == t
            && s'[IndexOf(s, 0)] == s[t]
  {
    var n := size * size;
    var e := IndexOf(s, 0);
    SwapPermutation(s, n, t, e);
    var s' := Swap(s, t, e);
    PermutationPosition(s', n, t);
  }

  /** Whether the random draws `d` are a valid Fisher-Yates round on `n` cells:
      draw number k, taken for i = n-1-k, lies in 0 .. i. */
  predicate ValidDraws(n: nat, d: seq<int>)
  {
    && |d| == (if n > 0 then n - 1 else 0)
    && forall k :: 0 <= k < |d| ==> 0 <= d[k] <= n - 1 - k
  }

  /** One Fisher-Yates round from step `k` on: for i = n-1-k down to 1, swap cells i and the draw. */
  function ShuffleFrom(s: seq<int>, d: seq<int>, k: nat): (t: seq<int>)
    requires ValidDraws(|s|, d) && k <= |d|
    ensures |t| == |s|
    decreases |d| - k
  {
    if k == |d| then s else ShuffleFrom(Swap(s, |s| - 1 - k, d[k]), d, k + 1)
  }

  /** A Fisher-Yates round keeps a permutation a permutation. */
  lemma {:induction false} ShuffleFromPermutation(s: seq<int>, d: seq<int>, k: nat)
    requires IsPermutation(s, |s|) && ValidDraws(|s|, d) && k <= |d|
    ensures IsPermutation(ShuffleFrom(s, d, k), |s|)
    decreases |d| - k
  {
    if k < |d| {
      SwapPermutation(s, |s|, |s| - 1 - k, d[k]);
      ShuffleFromPermutation(Swap(s, |s| - 1 - k, d[k]), d, k + 1);
    }
  }

  /** Whether every round of `rounds` is a valid Fisher-Yates round on `n` cells. */
  predicate ValidRounds(n: nat, rounds: seq<seq<int>>)
  {
    forall k :: 0 <= k < |rounds| ==> ValidDraws(n, rounds[k])
  }

  /** The board after the first `k` rounds of draws, each round shuffling the
      board the previous ones left, starting from the solved layout. */
  function Shuffled(size: int, rounds: seq<seq<int>>, k: nat): (s: seq<int>)
    requires size > 0 && ValidRounds(size * size, rounds) && k <= |rounds|
    ensures |s| == size * size
  {
    if k == 0 then SolvedBoard(size * size)
    else ShuffleFrom(Shuffled(size, rounds, k - 1), rounds[k - 1], 0)
  }

  /** However many rounds run, the board stays a permutation. */
  lemma {:induction false} ShuffledPermutation(size: int, rounds: seq<seq<int>>, k: nat)
    requires size > 0 && ValidRounds(size * size, rounds) && k <= |rounds|
    ensures IsPermutation(Shuffled(size, rounds, k), size * size)
  {
    if k == 0 {
      SolvedIsPermutation(size * size);
    } else {
      ShuffledPermutation(size, rounds, k - 1);
      ShuffleFromPermutation(Shuffled(size, rounds, k - 1), rounds[k - 1], 0);
    }
  }

  /** The exit test of the shuffle's `do ... while`: solvable and not already solved. */
  predicate Accepted(size: int, s: seq<int>)
    requires size > 0
  {
    IsSolvable(size, s) && !IsSolvedLayout(s)
  }

  /** On a 1x1 board no round is ever accepted: the only board is `[0]`, which is
      solved, so the shuffle's `do ... while` would never end. */
  lemma OneByOneNeverAccepted(rounds: seq<seq<int>>, k: nat)
    requires ValidRounds(1, rounds) && k <= |rounds|
    ensures !Accepted(1, Shuffled(1, rounds, k))
  {
    var t := Shuffled(1, rounds, k);
    ShuffledPermutation(1, rounds, k);
    assert t[0] in t;
    assert t == [0];
  }
}
