/** Dense events x centroids tables standing for the hazard's sparse
    intensity and fraction matrices. Sparsity (CSR storage, explicit zeros)
    is a representation detail; only the entries and the shape matter. */
module Matrices {
  import opened SeqUtil

  /** `cols` columns (one per centroid), one row per event. The column count
      is kept explicitly so that a matrix without rows still has a shape. */
  datatype Grid = Grid(cols: nat, rows: seq<seq<real>>)

  predicate Rectangular(g: Grid)
  {
    forall i :: 0 <= i < |g.rows| ==> |g.rows[i]| == g.cols
  }

  type Matrix = g: Grid | Rectangular(g) witness Grid(0, [])

  predicate SameShape(a: Matrix, b: Matrix)
  {
    |a.rows| == |b.rows| && a.cols == b.cols
  }

  /** No non-zero entry: nnz == 0 for the sparse matrix. */
  predicate IsZero(m: Matrix)
  {
    forall i, j :: 0 <= i < |m.rows| && 0 <= j < m.cols ==> m.rows[i][j] == 0.0
  }

  /** Some event has a non-zero value at centroid j. */
  predicate ColumnNonZero(m: Matrix, j: nat)
    requires j < m.cols
  {
    exists i :: 0 <= i < |m.rows| && m.rows[i][j] != 0.0
  }

  function ZeroRow(n: nat): (r: seq<real>)
    ensures |r| == n && forall k :: 0 <= k < n ==> r[k] == 0.0
  {
    seq(n, _ => 0.0)
  }

  /** The all-zero matrix of a given shape (sparse.csr_matrix(shape)). */
  function Zeros(height: nat, width: nat): (z: Matrix)
    ensures |z.rows| == height && z.cols == width && IsZero(z)
  {
    Grid(width, seq(height, _ => ZeroRow(width)))
  }

  /** m[idx, :]: the rows at idx, in that order. */
  function SelectRows(m: Matrix, idx: seq<nat>): (r: Matrix)
    requires InBounds(idx, |m.rows|)
    ensures r.cols == m.cols && |r.rows| == |idx|
    ensures forall k :: 0 <= k < |idx| ==> r.rows[k] == m.rows[idx[k]]
  {
    Grid(m.cols, Pick(m.rows, idx))
  }

  /** m[:, idx]: the columns at idx, in that order, repetitions included. */
  function SelectCols(m: Matrix, idx: seq<nat>): (r: Matrix)
    requires InBounds(idx, m.cols)
    ensures r.cols == |idx| && |r.rows| == |m.rows|
    ensures forall i, k :: 0 <= i < |m.rows| && 0 <= k < |idx| ==> r.rows[i][k] == m.rows[i][idx[k]]
  {
    Grid(|idx|, seq(|m.rows|, i requires 0 <= i < |m.rows| => Pick(m.rows[i], idx)))
  }

  /** Sum of the entries of a row that land in column c under the column map. */
  function SumAt(row: seq<real>, colMap: seq<nat>, c: nat): real
    requires |row| == |colMap|
  {
    if row == [] then 0.0
    else (if colMap[0] == c then row[0] else 0.0) + SumAt(row[1..], colMap[1..], c)
  }

  /** With an injective column map, column c receives the one entry mapped
      to it, or zero. */
  lemma {:induction false} SumAtInjective(row: seq<real>, colMap: seq<nat>, c: nat)
    requires |row| == |colMap| && Distinct(colMap)
    ensures SumAt(row, colMap, c) == if c in colMap then row[IndexOf(colMap, c)] else 0.0
  {
    if row != [] {
      SumAtInjective(row[1..], colMap[1..], c);
      if colMap[0] == c {
        assert c !in colMap[1..];
      } else if c in colMap[1..] {
        assert IndexOf(colMap, c) == 1 + IndexOf(colMap[1..], c);
      }
    }
  }

  /** The matrix re-laid onto `width` columns: the entry at column j of a row
      moves to column colMap[j]; entries mapped to one column add up, as
      duplicate column indices do in a CSR matrix. */
  function Scatter(m: Matrix, colMap: seq<nat>, width: nat): (r: Matrix)
    requires |colMap| == m.cols
    ensures r.cols == width && |r.rows| == |m.rows|
  {
    Grid(width, seq(|m.rows|, i requires 0 <= i < |m.rows| =>
      seq(width, c requires 0 <= c < width => SumAt(m.rows[i], colMap, c))))
  }

  function PadRow(row: seq<real>, left: nat, right: nat): (r: seq<real>)
    ensures |r| == left + |row| + right
    ensures forall c :: 0 <= c < |r| ==> r[c] == if left <= c < left + |row| then row[c - left] else 0.0
  {
    ZeroRow(left) + row + ZeroRow(right)
  }

  /** The matrix with `left` zero columns before and `right` after. */
  function PadColumns(m: Matrix, left: nat, right: nat): (r: Matrix)
    ensures r.cols == left + m.cols + right && |r.rows| == |m.rows|
    ensures forall i, c :: 0 <= i < |m.rows| && 0 <= c < r.cols ==>
      r.rows[i][c] == if left <= c < left + m.cols then m.rows[i][c - left] else 0.0
  {
    Grid(left + m.cols + right, seq(|m.rows|, i requires 0 <= i < |m.rows| =>
      PadRow(m.rows[i], left, right)))
  }

  /** Moving the columns onto a contiguous block [off, off + cols) of a wider
      matrix is padding with zeros on both sides. */
  lemma ScatterSpan(m: Matrix, off: nat, width: nat)
    requires off + m.cols <= width
    ensures Scatter(m, Span(off, m.cols), width) == PadColumns(m, off, width - off - m.cols)
  {
    var s := Scatter(m, Span(off, m.cols), width);
    var p := PadColumns(m, off, width - off - m.cols);
    var span := Span(off, m.cols);
    IncreasingDistinct(span);
    forall i | 0 <= i < |m.rows|
      ensures s.rows[i] == p.rows[i]
    {
      forall c | 0 <= c < width
        ensures s.rows[i][c] == p.rows[i][c]
      {
        SumAtInjective(m.rows[i], span, c);
        if off <= c < off + m.cols {
          assert span[c - off] == c;
          IndexOfDistinct(span, c - off);
        } else {
          assert c !in span;
        }
      }
    }
  }

  /** Padding by nothing leaves the matrix as it is. */
  lemma PadNothing(m: Matrix)
    ensures PadColumns(m, 0, 0) == m
  {
    var p := PadColumns(m, 0, 0);
    forall i | 0 <= i < |m.rows|
      ensures p.rows[i] == m.rows[i]
    {
    }
  }

  /** sparse.vstack of two matrices of the same width. */
  function Stack(a: Matrix, b: Matrix): (r: Matrix)
    requires a.cols == b.cols
    ensures r.cols == a.cols && r.rows == a.rows + b.rows
  {
    Grid(a.cols, a.rows + b.rows)
  }
}
