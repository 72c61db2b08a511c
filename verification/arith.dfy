/** Small facts about integer multiplication, division and row-major
    indexing that the solver does not find on its own. */
module Arith {

  function Abs(x: int): (r: nat)
    ensures r == x || r == -x
  {
    if x < 0 then -x else x
  }

  function Max(a: int, b: int): (r: int)
    ensures r >= a && r >= b
    ensures r == a || r == b
  {
    if a >= b then a else b
  }

  function Min(a: int, b: int): (r: int)
    ensures r <= a && r <= b
    ensures r == a || r == b
  {
    if a <= b then a else b
  }

  /** Multiplying both sides of `a <= b` by a non-negative factor. */
  lemma {:induction false} MulMonotone(a: int, b: int, c: nat)
    requires a <= b
    ensures a * c <= b * c
    decreases c
  {
    if c > 0 {
      MulMonotone(a, b, c - 1);
      assert a * c == a * (c - 1) + a;
      assert b * c == b * (c - 1) + b;
    }
  }

  /** `q` and `r` are the Euclidean quotient and remainder of `a` by `m`. */
  lemma DivModUnique(a: int, m: int, q: int, r: int)
    requires m > 0 && 0 <= r < m && a == q * m + r
    ensures a / m == q && a % m == r
  {
    var q', r' := a / m, a % m;
    assert a == q' * m + r';
    assert (q + 1) * m == q * m + m;
    assert (q' + 1) * m == q' * m + m;
    if q' > q {
      MulMonotone(q + 1, q', m);
    } else if q' < q {
      MulMonotone(q' + 1, q, m);
    }
  }

  /** A remainder that is already below the divisor. */
  lemma ModSmall(a: nat, m: nat)
    requires a < m
    ensures a % m == a && a / m == 0
  {
    DivModUnique(a, m, 0, a);
  }

  /** Adding the divisor leaves the remainder alone. */
  lemma ModAddPeriod(a: nat, m: nat)
    requires m > 0
    ensures (a + m) % m == a % m
  {
    var q := a / m;
    assert a == q * m + a % m;
    assert (q + 1) * m == q * m + m;
    DivModUnique(a + m, m, q + 1, a % m);
  }

  /** Cell `(row, col)` of a `width`-wide, `height`-tall grid has a row-major
      index below `width * height`. */
  /** `RowMajorBound` for any integer cell, stated as the implication from
      being inside the grid. */
  lemma RowMajorInside(row: int, col: int, width: nat, height: nat)
    ensures 0 <= row < height && 0 <= col < width ==>
      0 <= row * width + col && row * width + col + 1 <= height * width
  {
    if 0 <= row < height && 0 <= col < width {
      RowMajorBound(row, col, width, height);
    }
  }

  lemma RowMajorBound(row: nat, col: nat, width: nat, height: nat)
    requires row < height && col < width
    ensures row * width + col < height * width
    ensures (row * width + col + 1) <= height * width
    ensures 0 <= row * width
  {
    MulMonotone(0, row, width);
    MulMonotone(row + 1, height, width);
    assert (row + 1) * width == row * width + width;
  }

  /** A grid with a cell of index `k` has both dimensions positive. */
  lemma NonEmptyGrid(k: nat, width: nat, height: nat)
    requires k < height * width
    ensures width > 0 && height > 0
  {
  }

  /** Index `k` of a `width`-wide, `height`-tall grid is cell
      `(k / width, k % width)`. */
  lemma RowMajorSplit(k: nat, width: nat, height: nat) returns (row: nat, col: nat)
    requires k < height * width
    ensures row == k / width && col == k % width
    ensures row < height && col < width && k == row * width + col
  {
    NonEmptyGrid(k, width, height);
    row, col := k / width, k % width;
    if row >= height {
      MulMonotone(height, row, width);
    }
  }

  /** Row-major order of cells is the order of their row-major indices. */
  lemma RowMajorMonotone(row: nat, col: nat, row': nat, col': nat, width: nat)
    requires col < width && col' < width
    requires row < row' || (row == row' && col < col')
    ensures row * width + col < row' * width + col'
  {
    if row < row' {
      MulMonotone(row + 1, row', width);
      assert (row + 1) * width == row * width + width;
    }
  }

  /** A strictly smaller non-negative index stays strictly smaller once scaled
      by a positive factor. */
  lemma ScaleStrict(a: nat, b: nat, c: nat)
    requires a < b && c > 0
    ensures a * c < b * c
    ensures a * c + c <= b * c
  {
    MulMonotone(a + 1, b, c);
    assert (a + 1) * c == a * c + c;
  }

  /** Row-major indices in increasing order visit rows in order, and cells
      of one row in order. */
  lemma LexOrder(k: nat, k': nat, width: nat)
    requires k < k' && width > 0
    ensures k / width < k' / width || (k / width == k' / width && k % width < k' % width)
  {
    var j, j' := k / width, k' / width;
    assert (j' + 1) * width == j' * width + width;
    if j > j' {
      MulMonotone(j' + 1, j, width);
    }
  }
}
