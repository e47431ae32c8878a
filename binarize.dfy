/** The `Binarize` utilities of mlpack's data module: recode the entries of a
  * matrix to 1 when they lie strictly above a threshold and to 0 otherwise,
  * either for one row (a "dimension") or for the whole matrix, in place or
  * into a separate output matrix. */
module Binarize {
  import opened Matrices

  // ---------------------------------------------------------------------
  // The recoding rule and its lifting to rows and matrices.
  // ---------------------------------------------------------------------

  /** The rule every overload applies to one entry: strictly above the
    * threshold gives 1, at or below it (the threshold itself included) gives 0. */
  function Recode(x: real, threshold: real): (r: real)
    ensures r == 1.0 <==> x > threshold
    ensures r == 0.0 <==> x <= threshold
  {
    if x > threshold then 1.0 else 0.0
  }

  /** One row, recoded entry by entry. */
  function RecodeSeq(s: seq<real>, threshold: real): (r: seq<real>)
    ensures |r| == |s|
    ensures forall j :: 0 <= j < |s| ==> r[j] == Recode(s[j], threshold)
  {
    if s == [] then [] else [Recode(s[0], threshold)] + RecodeSeq(s[1..], threshold)
  }

  /** What the per-dimension overloads produce: row `dimension` recoded,
    * every other row as it was, the shape unchanged. */
  function RecodeRow(m: Matrix, threshold: real, dimension: nat): (r: Matrix)
    requires dimension < |m|
    ensures |r| == |m|
    ensures forall i :: 0 <= i < |m| && i != dimension ==> r[i] == m[i]
    ensures |r[dimension]| == |m[dimension]|
    ensures forall j :: 0 <= j < |m[dimension]| ==> r[dimension][j] == Recode(m[dimension][j], threshold)
  {
    m[dimension := RecodeSeq(m[dimension], threshold)]
  }

  /** What the whole-matrix overloads produce: every entry recoded, the shape unchanged. */
  function RecodeAll(m: Matrix, threshold: real): (r: Matrix)
    ensures |r| == |m|
    ensures forall i :: 0 <= i < |m| ==> |r[i]| == |m[i]|
    ensures forall i, j :: 0 <= i < |m| && 0 <= j < |m[i]| ==> r[i][j] == Recode(m[i][j], threshold)
  {
    if m == [] then [] else [RecodeSeq(m[0], threshold)] + RecodeAll(m[1..], threshold)
  }

  /** The per-dimension rule applied to dimensions 0, 1, ..., k - 1 in turn. */
  function RecodeRowsBelow(m: Matrix, threshold: real, k: nat): (r: Matrix)
    requires k <= |m|
    ensures |r| == |m|
  {
    if k == 0 then m else RecodeRow(RecodeRowsBelow(m, threshold, k - 1), threshold, k - 1)
  }

  lemma {:induction false} RecodeRowsBelowRows(m: Matrix, threshold: real, k: nat)
    requires k <= |m|
    ensures forall i :: 0 <= i < |m| ==>
      RecodeRowsBelow(m, threshold, k)[i] == if i < k then RecodeSeq(m[i], threshold) else m[i]
  {
    if k > 0 {
      RecodeRowsBelowRows(m, threshold, k - 1);
      var prev := RecodeRowsBelow(m, threshold, k - 1);
      assert RecodeRowsBelow(m, threshold, k) == RecodeRow(prev, threshold, k - 1);
      assert prev[k - 1] == m[k - 1];
      assert RecodeRow(prev, threshold, k - 1)[k - 1] == RecodeSeq(m[k - 1], threshold);
    }
  }

  /** Binarizing the whole matrix is the same as binarizing each of its
    * dimensions in turn with the per-dimension overload. */
  lemma {:induction false} RecodeAllIsEveryRow(m: Matrix, threshold: real)
    ensures RecodeAll(m, threshold) == RecodeRowsBelow(m, threshold, |m|)
  {
    RecodeRowsBelowRows(m, threshold, |m|);
    var all := RecodeAll(m, threshold);
    forall i | 0 <= i < |m|
      ensures all[i] == RecodeRowsBelow(m, threshold, |m|)[i]
    {
      assert all[i] == RecodeSeq(m[i], threshold);
    }
  }

  /** The per-dimension overloads touch nothing outside row `dimension`, and
    * recoding two different dimensions gives the same result in either order. */
  lemma RecodeRowsCommute(m: Matrix, threshold: real, d1: nat, d2: nat)
    requires d1 < |m| && d2 < |m| && d1 != d2
    ensures RecodeRow(RecodeRow(m, threshold, d1), threshold, d2)
         == RecodeRow(RecodeRow(m, threshold, d2), threshold, d1)
  {
  }

  // ---------------------------------------------------------------------
  // The whole-matrix loops as written: the outer loop runs i over
  // 0 .. n_cols - 1, the inner one j over 0 .. n_rows - 1, and the cell
  // written is (row i, column j).
  // ---------------------------------------------------------------------

  /** How often the inner loop for outer index `i` writes cell (r, c). */
  function InnerWrites(i: nat, rows: nat, r: nat, c: nat): nat
  {
    if rows == 0 then 0 else InnerWrites(i, rows - 1, r, c) + if (i, rows - 1) == (r, c) then 1 else 0
  }

  /** How often the nested loops, run on a matrix of `rows` rows and `cols`
    * columns, write cell (r, c). */
  function TransposedWrites(rows: nat, cols: nat, r: nat, c: nat): nat
  {
    if cols == 0 then 0 else TransposedWrites(rows, cols - 1, r, c) + InnerWrites(cols - 1, rows, r, c)
  }

  lemma {:induction false} InnerWritesCount(i: nat, rows: nat, r: nat, c: nat)
    ensures InnerWrites(i, rows, r, c) == if r == i && c < rows then 1 else 0
  {
    if rows > 0 {
      InnerWritesCount(i, rows - 1, r, c);
    }
  }

  /** The loops as written write each pair (r, c) with r < cols and c < rows
    * exactly once, and nothing else: the transpose of the matrix's cells. */
  lemma {:induction false} TransposedWritesCount(rows: nat, cols: nat, r: nat, c: nat)
    ensures TransposedWrites(rows, cols, r, c) == if r < cols && c < rows then 1 else 0
  {
    if cols > 0 {
      TransposedWritesCount(rows, cols - 1, r, c);
      InnerWritesCount(cols - 1, rows, r, c);
    }
  }

  /** Every cell the loops write lies inside a `rows` x `cols` matrix. */
  ghost predicate TransposedLoopInBounds(rows: nat, cols: nat) {
    forall r: nat, c: nat :: TransposedWrites(rows, cols, r, c) > 0 ==> r < rows && c < cols
  }

  /** The whole-matrix loops stay inside the matrix exactly when it is square
    * or has no cells at all; a 1 x 2 matrix, for one, is read at (1, 0). */
  lemma TransposedLoopInBoundsIff(rows: nat, cols: nat)
    ensures TransposedLoopInBounds(rows, cols) <==> rows == cols || rows == 0 || cols == 0
  {
    if rows != cols && rows != 0 && cols != 0 {
      TransposedWritesCount(rows, cols, cols - 1, rows - 1);
    } else {
      forall r: nat, c: nat | TransposedWrites(rows, cols, r, c) > 0
        ensures r < rows && c < cols
      {
        TransposedWritesCount(rows, cols, r, c);
      }
    }
  }

  /** On a square matrix the loops as written write every cell exactly once
    * and write nothing outside it. */
  lemma SquareLoopWritesEachCellOnce(n: nat)
    ensures forall r: nat, c: nat :: TransposedWrites(n, n, r, c) == if r < n && c < n then 1 else 0
  {
    forall r: nat, c: nat
      ensures TransposedWrites(n, n, r, c) == if r < n && c < n then 1 else 0
    {
      TransposedWritesCount(n, n, r, c);
    }
  }

  // ---------------------------------------------------------------------
  // The four overloads.
  // ---------------------------------------------------------------------

  /** `Binarize(input, threshold, dimension)`: recodes row `dimension` of `a`
    * in place; the other rows and the shape stay as they were. */
  method BinarizeDimension(a: array2<real>, threshold: real, dimension: nat)
    requires dimension < a.Length0
    modifies a
    ensures Cells(a) == RecodeRow(old(Cells(a)), threshold, dimension)
  {
    var i := 0;
    while i < a.Length1
      invariant 0 <= i <= a.Length1
      invariant forall r, c :: 0 <= r < a.Length0 && 0 <= c < a.Length1 ==>
        a[r, c] == if r == dimension && c < i then Recode(old(a[r, c]), threshold) else old(a[r, c])
    {
      if a[dimension, i] > threshold {
        a[dimension, i] := 1.0;
      } else {
        a[dimension, i] := 0.0;
      }
      i := i + 1;
    }
    CellsEqual(a, RecodeRow(old(Cells(a)), threshold, dimension));
  }

  /** `Binarize(input, threshold)` as written: the loops index (i, j) with
    * i < n_cols and j < n_rows, which stays in bounds only on a square or
    * empty matrix (TransposedLoopInBoundsIff); there it recodes every cell. */
  method BinarizeMatrixAsWritten(a: array2<real>, threshold: real)
    requires a.Length0 == a.Length1 || a.Length0 == 0 || a.Length1 == 0
    modifies a
    ensures Cells(a) == RecodeAll(old(Cells(a)), threshold)
  {
    var i := 0;
    while i < a.Length1
      invariant 0 <= i <= a.Length1
      invariant forall r, c :: 0 <= r < a.Length0 && 0 <= c < a.Length1 ==>
        a[r, c] == if r < i then Recode(old(a[r, c]), threshold) else old(a[r, c])
    {
      var j := 0;
      while j < a.Length0
        invariant 0 <= j <= a.Length0
        invariant forall r, c :: 0 <= r < a.Length0 && 0 <= c < a.Length1 ==>
          a[r, c] == if r < i || (r == i && c < j) then Recode(old(a[r, c]), threshold) else old(a[r, c])
      {
        if a[i, j] > threshold {
          a[i, j] := 1.0;
        } else {
          a[i, j] := 0.0;
        }
        j := j + 1;
      }
      i := i + 1;
    }
    CellsEqual(a, RecodeAll(old(Cells(a)), threshold));
  }

  /** `Binarize(input, threshold)` with the index pair in the evident order
    * (row j, column i): recodes every cell of a matrix of any shape. */
  method BinarizeMatrix(a: array2<real>, threshold: real)
    modifies a
    ensures Cells(a) == RecodeAll(old(Cells(a)), threshold)
  {
    var i := 0;
    while i < a.Length1
      invariant 0 <= i <= a.Length1
      invariant forall r, c :: 0 <= r < a.Length0 && 0 <= c < a.Length1 ==>
        a[r, c] == if c < i then Recode(old(a[r, c]), threshold) else old(a[r, c])
    {
      var j := 0;
      while j < a.Length0
        invariant 0 <= j <= a.Length0
        invariant forall r, c :: 0 <= r < a.Length0 && 0 <= c < a.Length1 ==>
          a[r, c] == if c < i || (c == i && r < j) then Recode(old(a[r, c]), threshold) else old(a[r, c])
      {
        if a[j, i] > threshold {
          a[j, i] := 1.0;
        } else {
          a[j, i] := 0.0;
        }
        j := j + 1;
      }
      i := i + 1;
    }
    CellsEqual(a, RecodeAll(old(Cells(a)), threshold));
  }

  /** `Binarize(input, output, threshold)` as written: `output` is given
    * `input`'s shape, then the loops index (i, j) as in BinarizeMatrixAsWritten,
    * so `input` must be square or empty; `input` is only read. */
  method BinarizeMatrixIntoAsWritten(input: array2<real>, threshold: real) returns (output: array2<real>)
    requires input.Length0 == input.Length1 || input.Length0 == 0 || input.Length1 == 0
    ensures fresh(output)
    ensures Cells(output) == RecodeAll(Cells(input), threshold)
  {
    output := new real[input.Length0, input.Length1];
    var i := 0;
    while i < input.Length1
      invariant 0 <= i <= input.Length1
      invariant forall r, c :: 0 <= r < input.Length0 && 0 <= c < input.Length1 && r < i ==>
        output[r, c] == Recode(input[r, c], threshold)
    {
      var j := 0;
      while j < input.Length0
        invariant 0 <= j <= input.Length0
        invariant forall r, c :: 0 <= r < input.Length0 && 0 <= c < input.Length1 && (r < i || (r == i && c < j)) ==>
          output[r, c] == Recode(input[r, c], threshold)
      {
        if input[i, j] > threshold {
          output[i, j] := 1.0;
        } else {
          output[i, j] := 0.0;
        }
        j := j + 1;
      }
      i := i + 1;
    }
    CellsEqual(output, RecodeAll(Cells(input), threshold));
  }

  /** `Binarize(input, output, threshold)` with the index pair in the evident
    * order: `output` receives every entry of `input` recoded, for any shape. */
  method BinarizeMatrixInto(input: array2<real>, threshold: real) returns (output: array2<real>)
    ensures fresh(output)
    ensures Cells(output) == RecodeAll(Cells(input), threshold)
  {
    output := new real[input.Length0, input.Length1];
    var i := 0;
    while i < input.Length1
      invariant 0 <= i <= input.Length1
      invariant forall r, c :: 0 <= r < input.Length0 && 0 <= c < input.Length1 && c < i ==>
        output[r, c] == Recode(input[r, c], threshold)
    {
      var j := 0;
      while j < input.Length0
        invariant 0 <= j <= input.Length0
        invariant forall r, c :: 0 <= r < input.Length0 && 0 <= c < input.Length1 && (c < i || (c == i && r < j)) ==>
          output[r, c] == Recode(input[r, c], threshold)
      {
        if input[j, i] > threshold {
          output[j, i] := 1.0;
        } else {
          output[j, i] := 0.0;
        }
        j := j + 1;
      }
      i := i + 1;
    }
    CellsEqual(output, RecodeAll(Cells(input), threshold));
  }

  /** What `Binarize(input, output, threshold, dimension)` leaves in `output`
    * as written: the statement meant to copy `input` into `output` does not
    * assign it, so `output` keeps its previous shape and contents except for
    * the first n_cols entries of row `dimension`, which receive `input`'s row
    * recoded. The writes need that row and those columns to exist in `output`. */
  function AsWrittenRowInto(input: Matrix, prev: Matrix, threshold: real, dimension: nat): (r: Matrix)
    requires dimension < |input| && dimension < |prev| && |input[dimension]| <= |prev[dimension]|
    ensures |r| == |prev|
    ensures forall i :: 0 <= i < |prev| && i != dimension ==> r[i] == prev[i]
    ensures |r[dimension]| == |prev[dimension]|
    ensures forall j :: 0 <= j < |prev[dimension]| ==>
      r[dimension][j] == if j < |input[dimension]| then Recode(input[dimension][j], threshold) else prev[dimension][j]
  {
    prev[dimension := RecodeSeq(input[dimension], threshold) + prev[dimension][|input[dimension]|..]]
  }

  /** The output as written matches the documented result exactly when the
    * caller's `output` already had `input`'s shape and held `input`'s rows
    * everywhere outside row `dimension`. */
  lemma AsWrittenMatchesDocumentedIff(input: Matrix, prev: Matrix, threshold: real, dimension: nat)
    requires dimension < |input| && dimension < |prev| && |input[dimension]| <= |prev[dimension]|
    ensures AsWrittenRowInto(input, prev, threshold, dimension) == RecodeRow(input, threshold, dimension)
        <==> (|prev| == |input| && |prev[dimension]| == |input[dimension]|
              && forall i :: 0 <= i < |input| && i != dimension ==> prev[i] == input[i])
  {
    var written := AsWrittenRowInto(input, prev, threshold, dimension);
    var documented := RecodeRow(input, threshold, dimension);
    if |prev| == |input| && |prev[dimension]| == |input[dimension]|
       && forall i :: 0 <= i < |input| && i != dimension ==> prev[i] == input[i]
    {
      forall i | 0 <= i < |input|
        ensures written[i] == documented[i]
      {
      }
    }
    if written == documented {
      forall i | 0 <= i < |input| && i != dimension
        ensures prev[i] == input[i]
      {
        assert written[i] == documented[i];
      }
    }
  }

  /** A concrete case: input [[2], [3]], threshold 1, dimension 0 and a caller's
    * output of [[0], [0]] end as [[1], [0]] rather than the documented [[1], [3]]. */
  lemma AsWrittenRowIntoDiffers()
    ensures AsWrittenRowInto([[2.0], [3.0]], [[0.0], [0.0]], 1.0, 0) == [[1.0], [0.0]]
    ensures RecodeRow([[2.0], [3.0]], 1.0, 0) == [[1.0], [3.0]]
  {
    var w := AsWrittenRowInto([[2.0], [3.0]], [[0.0], [0.0]], 1.0, 0);
    assert w[0] == [1.0] by { assert |w[0]| == 1 && w[0][0] == Recode(2.0, 1.0); }
    assert w[1] == [0.0];
    var d := RecodeRow([[2.0], [3.0]], 1.0, 0);
    assert d[0] == [1.0] by { assert |d[0]| == 1 && d[0][0] == Recode(2.0, 1.0); }
    assert d[1] == [3.0];
  }

  /** `Binarize(input, output, threshold, dimension)` as written: `output` is
    * not assigned from `input`, so only the first n_cols entries of its row
    * `dimension` change; `output` must already have that row and those
    * columns. `input` may be the same matrix as `output`. */
  method BinarizeDimensionIntoAsWritten(input: array2<real>, output: array2<real>, threshold: real, dimension: nat)
    requires dimension < input.Length0 && dimension < output.Length0 && input.Length1 <= output.Length1
    modifies output
    ensures Cells(output) == AsWrittenRowInto(old(Cells(input)), old(Cells(output)), threshold, dimension)
  {
    var i := 0;
    while i < input.Length1
      invariant 0 <= i <= input.Length1
      invariant forall c :: i <= c < input.Length1 ==> input[dimension, c] == old(input[dimension, c])
      invariant forall r, c :: 0 <= r < output.Length0 && 0 <= c < output.Length1 ==>
        output[r, c] == if r == dimension && c < i then Recode(old(input[r, c]), threshold) else old(output[r, c])
    {
      if input[dimension, i] > threshold {
        output[dimension, i] := 1.0;
      } else {
        output[dimension, i] := 0.0;
      }
      i := i + 1;
    }
    CellsEqual(output, AsWrittenRowInto(old(Cells(input)), old(Cells(output)), threshold, dimension));
  }

  /** `Binarize(input, output, threshold, dimension)` as documented: `output`
    * becomes a copy of `input` with row `dimension` recoded; `input` is only read. */
  method BinarizeDimensionInto(input: array2<real>, threshold: real, dimension: nat) returns (output: array2<real>)
    requires dimension < input.Length0
    ensures fresh(output)
    ensures Cells(output) == RecodeRow(Cells(input), threshold, dimension)
  {
    output := new real[input.Length0, input.Length1]((r, c) requires 0 <= r < input.Length0 && 0 <= c < input.Length1 reads input =>
      input[r, c]);
    var i := 0;
    while i < input.Length1
      invariant 0 <= i <= input.Length1
      invariant forall r, c :: 0 <= r < input.Length0 && 0 <= c < input.Length1 ==>
        output[r, c] == if r == dimension && c < i then Recode(input[r, c], threshold) else input[r, c]
    {
      if input[dimension, i] > threshold {
        output[dimension, i] := 1.0;
      } else {
        output[dimension, i] := 0.0;
      }
      i := i + 1;
    }
    CellsEqual(output, RecodeRow(Cells(input), threshold, dimension));
  }
}
