// Euclidean division facts shared by the index arithmetic of the models:
// the solver does not find them on its own when the divisor is a variable.

module Arith {

  /** The magnitude of an integer. */
  function Abs(a: int): nat
  {
    if a < 0 then -a else a
  }

  /** The quotient and remainder of `a` by `d` are the only pair with `0 <= r < d`. */
  lemma DivModUnique(a: int, d: int, q: int, r: int)
    requires 0 < d && 0 <= r < d && a == q * d + r
    ensures a / d == q && a % d == r
  {
    var q', r' := a / d, a % d;
    assert a == q' * d + r';
    assert (q - q') * d == r' - r;
    MulSign(q - q', d);
  }

  /** A non-zero multiple of `d` is at least `d` away from zero. */
  lemma MulSign(k: int, d: int)
    requires d > 0
    ensures k >= 1 ==> k * d >= d
    ensures k <= -1 ==> k * d <= -d
  {
    if k >= 1 {
      MulAtLeast(k, d);
    } else if k <= -1 {
      MulAtLeast(-k, d);
      assert k * d == -((-k) * d);
    }
  }

  lemma MulAtLeast(k: int, d: int)
    requires k >= 1 && d > 0
    ensures k * d >= d
  {
    assert k * d == (k - 1) * d + d;
    assert (k - 1) * d >= 0;
  }

  lemma MulAtMost(a: int, c: int, b: int)
    requires a <= c && b >= 0
    ensures a * b <= c * b
  {
    assert c * b - a * b == (c - a) * b;
  }

  /** The implication form of MulAtMost, for use where `a <= c` is to be refuted. */
  lemma MulMonotone(a: int, c: int, b: int)
    requires b >= 0
    ensures a <= c ==> a * b <= c * b
  {
    if a <= c {
      MulAtMost(a, c, b);
    }
  }

  /** Cell (row, col) of a row-major grid `width` cells wide lies inside the grid. */
  lemma GridIndex(row: int, col: int, width: int, height: int)
    requires 0 <= row < height && 0 <= col < width
    ensures 0 <= row * width + col < width * height
  {
    MulAtMost(row, height - 1, width);
    assert row * width >= 0;
  }

  /** The row and column of a cell are recovered from its row-major index. */
  lemma GridIndexInverse(row: int, col: int, width: int)
    requires 0 <= col < width
    ensures (row * width + col) / width == row && (row * width + col) % width == col
  {
    DivModUnique(row * width + col, width, row, col);
  }

  /** Every index of a row-major grid names a cell inside it. */
  lemma GridCell(j: int, width: int, height: int)
    requires width >= 1 && 0 <= j < width * height
    ensures 0 <= j / width < height && 0 <= j % width < width
  {
    MulMonotone(height, j / width, width);
  }
}
