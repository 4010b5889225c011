/** Facts about row-major numbering of a `rows` by `cols` array of cells. */
module RowMajorArith {

  /** A product of naturals grows with its first factor. */
  lemma MulMonotone(a: nat, b: nat, k: nat)
    requires a <= b
    ensures a * k <= b * k
  {
  }

  /** Euclidean division is determined by quotient and remainder. */
  lemma DivModUnique(a: nat, cols: nat, q: nat, r: nat)
    requires a == q * cols + r && r < cols
    ensures a / cols == q && a % cols == r
  {
    var q', r' := a / cols, a % cols;
    assert a == q' * cols + r';
    if q' > q {
      MulMonotone(q + 1, q', cols);
    } else if q' < q {
      MulMonotone(q' + 1, q, cols);
    }
  }

  /** Cell (y, x) comes before cell number `rows * cols`. */
  lemma CellBeforeEnd(y: nat, x: nat, rows: nat, cols: nat)
    requires y < rows && x < cols
    ensures y * cols + x < rows * cols
  {
    MulMonotone(y + 1, rows, cols);
  }

  /** The array has a cell exactly when both dimensions are positive. */
  lemma CountPositive(rows: nat, cols: nat)
    ensures rows * cols > 0 <==> rows > 0 && cols > 0
  {
    if rows > 0 && cols > 0 {
      MulMonotone(1, rows, cols);
    }
  }
}
