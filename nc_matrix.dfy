/**
 * The class template matrix<T0, R, C> of numerical_calculus/include/nc_cpp.hpp,
 * over ints: a fixed row and column count and a flat row-major array that
 * the operations fill with nested loops. Each operation is proved against
 * the matrix value it must produce (module NcMatrixSpec).
 */
module NcMatrix {
  import opened NcMatrixSpec

  /** cols * i + cols is the flat position where row i + 1 starts. */
  lemma NextRow(cols: nat, i: nat)
    ensures cols * i + cols == cols * (i + 1)
  {
  }

  /** The first n cells of d (all of them when n is past the end) already
      hold their target values. */
  ghost predicate FilledUpTo(d: seq<int>, target: seq<int>, n: int)
  {
    |d| == |target| && forall k | 0 <= k < |d| && k < n :: d[k] == target[k]
  }

  /** Writing the target value of cell n extends the filled prefix. */
  lemma FillStep(d: seq<int>, target: seq<int>, n: nat)
    requires FilledUpTo(d, target, n) && n < |d|
    ensures FilledUpTo(d[n := target[n]], target, n + 1)
  {
  }

  /** A prefix covering every cell is the whole target. */
  lemma FillDone(d: seq<int>, target: seq<int>, n: int)
    requires FilledUpTo(d, target, n) && n >= |d|
    ensures d == target
  {
  }

  /** Storage of an n-by-n matrix that holds 0 everywhere except 1 on the
      first k diagonal entries. */
  function PartialIdentity(n: nat, k: nat): (cells: seq<int>)
    ensures |cells| == n * n
  {
    seq(n * n, p requires 0 <= p < n * n => if p / n == p % n && p / n < k then 1 else 0)
  }

  lemma PartialIdentityStart(n: nat)
    ensures PartialIdentity(n, 0) == Zero(n, n).cells
  {
  }

  /** Writing 1 on diagonal entry k extends the partial identity. */
  lemma PartialIdentityStep(n: nat, k: nat)
    requires k < n
    ensures PartialIdentity(n, k)[CalcIndex(n, n, k, k) := 1] == PartialIdentity(n, k + 1)
  {
  }

  lemma {:induction false} PartialIdentityDone(n: nat)
    ensures PartialIdentity(n, n) == Identity(n).cells
  {
    forall p | 0 <= p < n * n
      ensures p / n < n
    {
      IndexRoundTrip(n, n, p);
    }
  }

  /** Storing value i of the vector in cell i extends the copied prefix. */
  lemma CopyStep(xs: seq<int>, before: seq<int>, i: nat)
    requires i < |xs| <= |before|
    ensures (xs[..i] + before[i..])[i := xs[i]] == xs[..i + 1] + before[i + 1..]
  {
  }

  /** make_transposed has visited entries (i', j') of m before (i, j) in
      row-major order, and the transposed cell of each holds its value. */
  ghost predicate TransposedUpTo(d: seq<int>, m: Mat, i: nat, j: nat)
    requires Wf(m)
  {
    && |d| == m.rows * m.cols
    && forall p | 0 <= p < |d| && (p % m.rows < i || (p % m.rows == i && p / m.rows < j)) ::
         d[p] == TransposedCell(m, p)
  }

  /** Copying entry (i, j) of m to entry (j, i) of the transpose. */
  lemma TransposeStep(d: seq<int>, m: Mat, i: nat, j: nat)
    requires Wf(m) && i < m.rows && j < m.cols && TransposedUpTo(d, m, i, j)
    ensures TransposedUpTo(d[CalcIndex(m.cols, m.rows, j, i) := Get(m, i, j)], m, i, j + 1)
  {
  }

  /** Finishing row i of m is starting row i + 1. */
  lemma {:induction false} TransposeNextRow(d: seq<int>, m: Mat, i: nat)
    requires Wf(m) && TransposedUpTo(d, m, i, m.cols)
    ensures TransposedUpTo(d, m, i + 1, 0)
  {
    forall p | 0 <= p < |d|
      ensures p / m.rows < m.cols
    {
      IndexRoundTrip(m.cols, m.rows, p);
    }
  }

  lemma {:induction false} TransposeDone(d: seq<int>, m: Mat)
    requires Wf(m) && TransposedUpTo(d, m, m.rows, 0)
    ensures d == Transpose(m).cells
  {
    forall p | 0 <= p < |d|
      ensures p % m.rows < m.rows
    {
      IndexRoundTrip(m.cols, m.rows, p);
    }
  }

  class Matrix {
    const rows: nat
    const cols: nat
    const data: array<int>

    ghost predicate Valid()
      reads this
    {
      data.Length == rows * cols
    }

    /** The matrix value the storage holds. */
    ghost function Value(): (m: Mat)
      requires Valid()
      reads this, data
      ensures Wf(m)
    {
      Mat(rows, cols, data[..])
    }

    /** operator(): the storage cell calc_index picks for (row, col). */
    function At(row: nat, col: nat): (x: int)
      requires Valid() && row < rows && col < cols
      reads this, data
      ensures x == Get(Value(), row, col)
    {
      data[CalcIndex(rows, cols, row, col)]
    }

    /** matrix(dont_init): the storage is left as it comes. */
    constructor DontInit(r: nat, c: nat)
      ensures Valid() && rows == r && cols == c && fresh(data)
    {
      rows, cols := r, c;
      data := new int[r * c];
    }

    /** matrix(): clears the storage. */
    constructor (r: nat, c: nat)
      ensures Valid() && rows == r && cols == c && fresh(data)
      ensures Value() == Zero(r, c)
    {
      rows, cols := r, c;
      data := new int[r * c];
      new;
      Clear();
    }

    /** matrix(init_identity): a square identity matrix. */
    constructor InitIdentity(n: nat)
      ensures Valid() && rows == n && cols == n && fresh(data)
      ensures Value() == Identity(n)
    {
      rows, cols := n, n;
      data := new int[n * n];
      new;
      ClearToIdentity();
    }

    /** clear: every entry, row by row, becomes 0. */
    method Clear()
      requires Valid()
      modifies data
      ensures Value() == Zero(rows, cols)
    {
      ghost var target := Zero(rows, cols).cells;
      for i := 0 to rows
        invariant FilledUpTo(data[..], target, cols * i)
      {
        for j := 0 to cols
          invariant FilledUpTo(data[..], target, cols * i + j)
        {
          var p := CalcIndex(rows, cols, i, j);
          FillStep(data[..], target, p);
          data[p] := 0;
        }
        NextRow(cols, i);
      }
      FillDone(data[..], target, cols * rows);
    }

    /** clear_to_identity: only for square matrices; clears, then writes 1
        on the diagonal. */
    method ClearToIdentity()
      requires Valid() && rows == cols
      modifies data
      ensures Value() == Identity(rows)
    {
      Clear();
      PartialIdentityStart(rows);
      for k := 0 to rows
        invariant data[..] == PartialIdentity(rows, k)
      {
        PartialIdentityStep(rows, k);
        data[CalcIndex(rows, cols, k, k)] := 1;
      }
      PartialIdentityDone(rows);
    }

    /** set_from_vector: at most rows * cols values; value i goes to the
        entry calc_1d_index(i), which is storage cell i, and the cells after
        the last value keep what they held. */
    method SetFromVector(xs: seq<int>)
      requires Valid() && |xs| <= rows * cols
      modifies data
      ensures data[..] == xs + old(data[..])[|xs|..]
    {
      ghost var before := data[..];
      for i := 0 to |xs|
        invariant data[..] == xs[..i] + before[i..]
      {
        IndexRoundTrip(rows, cols, i);
        CopyStep(xs, before, i);
        var rc := Calc1dIndex(cols, i);
        data[CalcIndex(rows, cols, rc.0, rc.1)] := xs[i];
      }
      assert xs[..|xs|] == xs;
    }

    /** operator+: a new matrix, entry by entry the sum of this and rhs. */
    method Add(rhs: Matrix) returns (result: Matrix)
      requires Valid() && rhs.Valid() && rhs.rows == rows && rhs.cols == cols
      ensures fresh(result) && fresh(result.data) && result.Valid()
      ensures result.Value() == Plus(Value(), rhs.Value())
    {
      ghost var target := Plus(Value(), rhs.Value()).cells;
      result := new Matrix.DontInit(rows, cols);
      for i := 0 to rows
        invariant FilledUpTo(result.data[..], target, cols * i)
      {
        for j := 0 to cols
          invariant FilledUpTo(result.data[..], target, cols * i + j)
        {
          var p := CalcIndex(rows, cols, i, j);
          FillStep(result.data[..], target, p);
          result.data[p] := At(i, j) + rhs.At(i, j);
        }
        NextRow(cols, i);
      }
      FillDone(result.data[..], target, cols * rows);
    }

    /** operator-: a new matrix, entry by entry the difference of this and rhs. */
    method Sub(rhs: Matrix) returns (result: Matrix)
      requires Valid() && rhs.Valid() && rhs.rows == rows && rhs.cols == cols
      ensures fresh(result) && fresh(result.data) && result.Valid()
      ensures result.Value() == Minus(Value(), rhs.Value())
    {
      ghost var target := Minus(Value(), rhs.Value()).cells;
      result := new Matrix.DontInit(rows, cols);
      for i := 0 to rows
        invariant FilledUpTo(result.data[..], target, cols * i)
      {
        for j := 0 to cols
          invariant FilledUpTo(result.data[..], target, cols * i + j)
        {
          var p := CalcIndex(rows, cols, i, j);
          FillStep(result.data[..], target, p);
          result.data[p] := At(i, j) - rhs.At(i, j);
        }
        NextRow(cols, i);
      }
      FillDone(result.data[..], target, cols * rows);
    }

    /** operator*: a new rows-by-rhs.cols matrix; each entry accumulates,
        from 0, the products along a row of this and a column of rhs. */
    method Mul(rhs: Matrix) returns (result: Matrix)
      requires Valid() && rhs.Valid() && rhs.rows == cols
      ensures fresh(result) && fresh(result.data) && result.Valid()
      ensures result.Value() == Times(Value(), rhs.Value())
    {
      ghost var a, b := Value(), rhs.Value();
      ghost var target := Times(a, b).cells;
      result := new Matrix.DontInit(rows, rhs.cols);
      for ri := 0 to rows
        invariant FilledUpTo(result.data[..], target, rhs.cols * ri)
      {
        for rj := 0 to rhs.cols
          invariant FilledUpTo(result.data[..], target, rhs.cols * ri + rj)
        {
          var x := 0;
          for k := 0 to cols
            invariant x == Dot(a, b, ri, rj, k)
          {
            x := x + At(ri, k) * rhs.At(k, rj);
          }
          var p := CalcIndex(rows, rhs.cols, ri, rj);
          FillStep(result.data[..], target, p);
          result.data[p] := x;
        }
        NextRow(rhs.cols, ri);
      }
      FillDone(result.data[..], target, rhs.cols * rows);
    }
  }

  /** make_transposed: a new cleared cols-by-rows matrix whose entry (j, i)
      is then set to entry (i, j) of m. */
  method MakeTransposed(m: Matrix) returns (result: Matrix)
    requires m.Valid()
    ensures fresh(result) && fresh(result.data) && result.Valid()
    ensures result.Value() == Transpose(m.Value())
  {
    ghost var mv := m.Value();
    result := new Matrix(m.cols, m.rows);
    for i := 0 to m.rows
      invariant TransposedUpTo(result.data[..], mv, i, 0)
    {
      for j := 0 to m.cols
        invariant TransposedUpTo(result.data[..], mv, i, j)
      {
        TransposeStep(result.data[..], mv, i, j);
        result.data[CalcIndex(m.cols, m.rows, j, i)] := m.At(i, j);
      }
      TransposeNextRow(result.data[..], mv, i);
    }
    TransposeDone(result.data[..], mv);
  }
}
