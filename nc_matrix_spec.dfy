/**
 * Values of the fixed-size matrix of numerical_calculus/include/nc_cpp.hpp:
 * a rows-by-cols grid of ints stored row-major in one flat sequence, with
 * the index arithmetic of calc_index and calc_1d_index and the results that
 * the matrix operations must produce.
 */
module NcMatrixSpec {

  /** The product of two naturals grows with either factor. */
  lemma MulMonotone(c: nat, x: nat, y: nat)
    ensures x <= y ==> c * x <= c * y
  {
    if x <= y {
      assert c * y == c * x + c * (y - x);
    }
  }

  /** A non-zero multiple of c is at least c away from zero. */
  lemma MulAwayFromZero(c: nat, d: int)
    ensures d >= 1 ==> c * d >= c
    ensures d <= -1 ==> c * d <= -(c as int)
  {
    if d >= 1 {
      MulMonotone(c, 1, d);
    }
    if d <= -1 {
      MulMonotone(c, 1, -d);
      assert c * d == -(c * -d);
    }
  }

  /** Dividing r + c * q by c gives back q and r when r < c. */
  lemma DivModUnique(c: nat, q: nat, r: nat)
    requires r < c
    ensures (r + c * q) / c == q && (r + c * q) % c == r
  {
    var k := r + c * q;
    var q', r' := k / c, k % c;
    assert k == c * q' + r' && 0 <= r' < c;
    assert c * (q - q') == c * q - c * q';
    MulAwayFromZero(c, q - q');
  }

  /** calc_index: the flat position of (row, col) in row-major order. */
  function CalcIndex(rows: nat, cols: nat, row: nat, col: nat): (k: nat)
    requires row < rows && col < cols
    ensures k < rows * cols
    ensures k / cols == row && k % cols == col
  {
    DivModUnique(cols, row, col);
    MulMonotone(cols, row + 1, rows);
    col + cols * row
  }

  /** calc_1d_index: asserts a non-zero column count, then splits a flat
      position into its row (i / cols) and column (i - row * cols). */
  function Calc1dIndex(cols: nat, i: nat): (rc: (nat, nat))
    requires cols != 0
    ensures rc.1 < cols
  {
    var y := i / cols;
    (y, i - y * cols)
  }

  /** calc_1d_index inverts calc_index on the positions of a matrix, and
      calc_index inverts calc_1d_index on its cells. */
  lemma {:induction false} IndexRoundTrip(rows: nat, cols: nat, i: nat)
    requires i < rows * cols
    ensures cols != 0
    ensures var rc := Calc1dIndex(cols, i);
      rc.0 < rows && CalcIndex(rows, cols, rc.0, rc.1) == i
  {
    var y := i / cols;
    assert i == cols * y + i % cols;
    MulMonotone(cols, rows, y);
  }

  lemma CellRoundTrip(rows: nat, cols: nat, row: nat, col: nat)
    requires row < rows && col < cols
    ensures Calc1dIndex(cols, CalcIndex(rows, cols, row, col)) == (row, col)
  {
  }

  datatype Mat = Mat(rows: nat, cols: nat, cells: seq<int>)

  ghost predicate Wf(m: Mat)
  {
    |m.cells| == m.rows * m.cols
  }

  /** operator(): the entry at (i, j). */
  function Get(m: Mat, i: nat, j: nat): int
    requires Wf(m) && i < m.rows && j < m.cols
  {
    m.cells[CalcIndex(m.rows, m.cols, i, j)]
  }

  /** The cell at flat position k, seen as entry (row, col). */
  lemma {:induction false} CellIsEntry(m: Mat, k: nat)
    requires Wf(m) && k < |m.cells|
    ensures m.cols != 0 && k / m.cols < m.rows
    ensures Get(m, k / m.cols, k % m.cols) == m.cells[k]
  {
    IndexRoundTrip(m.rows, m.cols, k);
  }

  /** Two matrices of the same shape with the same entries are equal. */
  lemma {:induction false} EntriesDetermine(m: Mat, n: Mat)
    requires Wf(m) && Wf(n) && m.rows == n.rows && m.cols == n.cols
    requires forall i: nat, j: nat | i < m.rows && j < m.cols :: Get(m, i, j) == Get(n, i, j)
    ensures m == n
  {
    forall k | 0 <= k < |m.cells|
      ensures m.cells[k] == n.cells[k]
    {
      CellIsEntry(m, k);
      CellIsEntry(n, k);
    }
  }

  function Zero(rows: nat, cols: nat): (m: Mat)
    ensures Wf(m)
  {
    Mat(rows, cols, seq(rows * cols, k => 0))
  }

  /** 1 on the diagonal, 0 elsewhere. */
  function Identity(n: nat): (m: Mat)
    ensures Wf(m)
  {
    Mat(n, n, seq(n * n, k requires 0 <= k < n * n => if k / n == k % n then 1 else 0))
  }

  lemma IdentityEntries(n: nat, i: nat, j: nat)
    requires i < n && j < n
    ensures Get(Identity(n), i, j) == if i == j then 1 else 0
  {
  }

  /** operator+: entry by entry sum. */
  function Plus(a: Mat, b: Mat): (m: Mat)
    requires Wf(a) && Wf(b) && a.rows == b.rows && a.cols == b.cols
    ensures Wf(m) && m.rows == a.rows && m.cols == a.cols
    ensures forall i: nat, j: nat | i < m.rows && j < m.cols :: Get(m, i, j) == Get(a, i, j) + Get(b, i, j)
  {
    Mat(a.rows, a.cols, seq(|a.cells|, k requires 0 <= k < |a.cells| => a.cells[k] + b.cells[k]))
  }

  /** operator-: entry by entry difference. */
  function Minus(a: Mat, b: Mat): (m: Mat)
    requires Wf(a) && Wf(b) && a.rows == b.rows && a.cols == b.cols
    ensures Wf(m) && m.rows == a.rows && m.cols == a.cols
    ensures forall i: nat, j: nat | i < m.rows && j < m.cols :: Get(m, i, j) == Get(a, i, j) - Get(b, i, j)
  {
    Mat(a.rows, a.cols, seq(|a.cells|, k requires 0 <= k < |a.cells| => a.cells[k] - b.cells[k]))
  }

  /** Subtracting what was added gives back the matrix. */
  lemma {:induction false} PlusMinus(a: Mat, b: Mat)
    requires Wf(a) && Wf(b) && a.rows == b.rows && a.cols == b.cols
    ensures Minus(Plus(a, b), b) == a
  {
    EntriesDetermine(Minus(Plus(a, b), b), a);
  }

  /** The cell of the transpose at flat position k: row k / rows of the
      transpose is column k / rows of m. */
  function TransposedCell(m: Mat, k: nat): int
    requires Wf(m) && k < m.rows * m.cols
  {
    IndexRoundTrip(m.cols, m.rows, k);
    Get(m, k % m.rows, k / m.rows)
  }

  /** make_transposed: entry (j, i) of the result is entry (i, j) of m. */
  function Transpose(m: Mat): (t: Mat)
    requires Wf(m)
    ensures Wf(t) && t.rows == m.cols && t.cols == m.rows
    ensures forall i: nat, j: nat | i < m.rows && j < m.cols :: Get(t, j, i) == Get(m, i, j)
  {
    var t := Mat(m.cols, m.rows, seq(m.rows * m.cols, k requires 0 <= k < m.rows * m.cols => TransposedCell(m, k)));
    assert forall i: nat, j: nat | i < m.rows && j < m.cols :: Get(t, j, i) == Get(m, i, j) by {
      forall i: nat, j: nat | i < m.rows && j < m.cols
        ensures Get(t, j, i) == Get(m, i, j)
      {
        CellRoundTrip(m.cols, m.rows, j, i);
      }
    }
    t
  }

  /** Transposing twice gives back the matrix. */
  lemma {:induction false} TransposeTwice(m: Mat)
    requires Wf(m)
    ensures Transpose(Transpose(m)) == m
  {
    EntriesDetermine(Transpose(Transpose(m)), m);
  }

  /** The accumulator of operator*'s innermost loop after n terms: row i of a
      against column j of b, summed from k = 0. */
  function Dot(a: Mat, b: Mat, i: nat, j: nat, n: nat): int
    requires Wf(a) && Wf(b) && a.cols == b.rows && i < a.rows && j < b.cols && n <= a.cols
  {
    if n == 0 then 0 else Dot(a, b, i, j, n - 1) + Get(a, i, n - 1) * Get(b, n - 1, j)
  }

  function ProductCell(a: Mat, b: Mat, k: nat): int
    requires Wf(a) && Wf(b) && a.cols == b.rows && k < a.rows * b.cols
  {
    IndexRoundTrip(a.rows, b.cols, k);
    Dot(a, b, k / b.cols, k % b.cols, a.cols)
  }

  /** operator*: entry (i, j) is the dot product of row i and column j. */
  function Times(a: Mat, b: Mat): (m: Mat)
    requires Wf(a) && Wf(b) && a.cols == b.rows
    ensures Wf(m) && m.rows == a.rows && m.cols == b.cols
    ensures forall i: nat, j: nat | i < m.rows && j < m.cols :: Get(m, i, j) == Dot(a, b, i, j, a.cols)
  {
    var m := Mat(a.rows, b.cols, seq(a.rows * b.cols, k requires 0 <= k < a.rows * b.cols => ProductCell(a, b, k)));
    assert forall i: nat, j: nat | i < m.rows && j < m.cols :: Get(m, i, j) == Dot(a, b, i, j, a.cols) by {
      forall i: nat, j: nat | i < m.rows && j < m.cols
        ensures Get(m, i, j) == Dot(a, b, i, j, a.cols)
      {
        CellRoundTrip(a.rows, b.cols, i, j);
      }
    }
    m
  }

  /** Against the identity on the left, the first n terms of row i pick out
      entry (i, j) exactly when i < n. */
  lemma {:induction false} DotIdentityLeft(b: Mat, i: nat, j: nat, n: nat)
    requires Wf(b) && i < b.rows && j < b.cols && n <= b.rows
    ensures Dot(Identity(b.rows), b, i, j, n) == if i < n then Get(b, i, j) else 0
  {
    if n > 0 {
      DotIdentityLeft(b, i, j, n - 1);
      IdentityEntries(b.rows, i, n - 1);
    }
  }

  /** Against the identity on the right, the first n terms of column j pick
      out entry (i, j) exactly when j < n. */
  lemma {:induction false} DotIdentityRight(a: Mat, i: nat, j: nat, n: nat)
    requires Wf(a) && i < a.rows && j < a.cols && n <= a.cols
    ensures Dot(a, Identity(a.cols), i, j, n) == if j < n then Get(a, i, j) else 0
  {
    if n > 0 {
      DotIdentityRight(a, i, j, n - 1);
      IdentityEntries(a.cols, n - 1, j);
    }
  }

  /** The identity is neutral for operator* on either side. */
  lemma {:induction false} TimesIdentity(m: Mat)
    requires Wf(m)
    ensures Times(Identity(m.rows), m) == m
    ensures Times(m, Identity(m.cols)) == m
  {
    forall i: nat, j: nat | i < m.rows && j < m.cols
      ensures Get(Times(Identity(m.rows), m), i, j) == Get(m, i, j)
      ensures Get(Times(m, Identity(m.cols)), i, j) == Get(m, i, j)
    {
      DotIdentityLeft(m, i, j, m.rows);
      DotIdentityRight(m, i, j, m.cols);
    }
    EntriesDetermine(Times(Identity(m.rows), m), m);
    EntriesDetermine(Times(m, Identity(m.cols)), m);
  }
}
