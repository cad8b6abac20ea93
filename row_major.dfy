/** Arithmetic facts about row-major boards, where cell (r, c) of a size-by-size
    board is stored at index r * size + c. Both games store their boards this way. */
module RowMajor {

  /** The row and column of `r * size + c` are `r` and `c`. */
  lemma {:induction false} DivModOfIndex(size: int, r: int, c: int)
    requires size > 0 && 0 <= c < size
    ensures (r * size + c) / size == r && (r * size + c) % size == c
  {
    var n := r * size + c;
    var q, m := n / size, n % size;
    assert (q - r) * size == c - m;
    if q - r >= 1 {
      MulAtLeast(q - r, size);
    } else if q - r <= -1 {
      MulAtLeast(r - q, size);
    }
  }

  lemma MulAtLeast(k: int, size: int)
    requires k >= 1 && size > 0
    ensures k * size >= size
  {
  }

  /** An in-bounds cell has an index on the board. */
  lemma {:induction false} IndexInRange(size: int, r: int, c: int)
    requires 0 <= r < size && 0 <= c < size
    ensures 0 <= r * size + c < size * size
  {
    MulMonotone(r, size - 1, size);
    assert (size - 1) * size == size * size - size;
  }

  lemma MulMonotone(a: nat, b: nat, k: nat)
    requires a <= b
    ensures a * k <= b * k
  {
  }

  /** An index on the board has its row and column on the board. */
  lemma {:induction false} RowColInRange(size: int, i: int)
    requires size > 0 && 0 <= i < size * size
    ensures 0 <= i / size < size && 0 <= i % size < size
  {
    var q := i / size;
    if q >= size {
      MulMonotone(size, q, size);
    }
  }

  /** Every index past the board has a row past the last one. */
  lemma {:induction false} RowPastBoard(size: int, i: int)
    requires size > 0 && i >= size * size
    ensures i / size >= size
  {
    var q := i / size;
    if q < size {
      MulMonotone(q, size - 1, size);
    }
  }

  /** Row numbers grow with the index. */
  lemma {:induction false} RowMonotone(size: int, i: int, j: int)
    requires size > 0 && 0 <= i <= j
    ensures i / size <= j / size
  {
    var qi, qj := i / size, j / size;
    if qi > qj {
      MulMonotone(qj + 1, qi, size);
    }
  }

  lemma ModOfSmall(x: int, m: int)
    requires 0 <= x < m
    ensures x % m == x
  {
  }

  /** Distinct cells have distinct indices. */
  lemma IndexInjective(size: int, r: int, c: int, r': int, c': int)
    requires size > 0 && 0 <= c < size && 0 <= c' < size
    requires r * size + c == r' * size + c'
    ensures r == r' && c == c'
  {
    DivModOfIndex(size, r, c);
    DivModOfIndex(size, r', c');
  }
}
