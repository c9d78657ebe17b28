/** Facts about non-linear index arithmetic (`i * cols`, `k / cols`) that
    the row-major layout rests on. */
module Arith {

  /** Multiplication by a natural number is monotone. */
  lemma MulMonotone(a: nat, b: nat, c: nat)
    requires a <= b
    ensures a * c <= b * c
  {
    assert b * c == a * c + (b - a) * c;
  }

  /** In a buffer of `rows * cols` elements the whole of row `i < rows` fits. */
  lemma RowFits(i: nat, rows: nat, cols: nat)
    requires i < rows
    ensures i * cols + cols <= rows * cols
  {
    MulMonotone(i + 1, rows, cols);
  }

  /** A strict inequality between multiples orders the multiplied numbers. */
  lemma MulCancel(a: nat, b: nat, c: nat)
    ensures a * c < b * c ==> a < b
  {
    if a >= b {
      MulMonotone(b, a, c);
    }
  }

  /** The quotient of an exact product is the other factor. */
  lemma DivExact(n: nat, rows: nat, cols: nat)
    requires rows > 0 && n == rows * cols
    ensures n / rows == cols && n % rows == 0
  {
    var q: nat, r := n / rows, n % rows;
    assert n == q * rows + r && 0 <= r < rows;
    MulCancel(cols, q + 1, rows);
    MulCancel(q, cols + 1, rows);
  }

  /** Offset `k` lies in row `i` exactly when `k / cols == i`. */
  lemma RowOfOffset(k: nat, i: nat, cols: nat)
    requires cols > 0
    ensures i * cols <= k < i * cols + cols <==> k / cols == i
  {
    var q: nat, r := k / cols, k % cols;
    assert k == q * cols + r && 0 <= r < cols;
    MulCancel(i, q + 1, cols);
    MulCancel(q, i + 1, cols);
  }

  /** An offset inside `rows` rows of `cols` splits into a row and a column. */
  lemma Decompose(k: nat, rows: nat, cols: nat) returns (i: nat, x: nat)
    requires k < rows * cols
    ensures i < rows && x < cols && k == i * cols + x
  {
    i, x := k / cols, k % cols;
    MulCancel(i, rows, cols);
  }
}
