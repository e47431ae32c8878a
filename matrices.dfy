/** Dense matrices of reals, stored as `array2<real>` and indexed (row, column)
  * the way the source's `arma::Mat<T>` is, together with their value view. */
module Matrices {

  /** A matrix as a value: a sequence of rows, row `r` holding the entries (r, 0), (r, 1), ... */
  type Matrix = seq<seq<real>>

  /** `m` has `rows` rows of `cols` entries each. */
  ghost predicate IsMatrix(m: Matrix, rows: nat, cols: nat) {
    |m| == rows && forall r :: 0 <= r < rows ==> |m[r]| == cols
  }

  /** The current contents of `a`, as a value. */
  ghost function Cells(a: array2<real>): (m: Matrix)
    reads a
    ensures IsMatrix(m, a.Length0, a.Length1)
    ensures forall r, c :: 0 <= r < a.Length0 && 0 <= c < a.Length1 ==> m[r][c] == a[r, c]
  {
    seq(a.Length0, r requires 0 <= r < a.Length0 reads a =>
      seq(a.Length1, c requires 0 <= c < a.Length1 reads a => a[r, c]))
  }

  /** An array whose every cell agrees with a value of its shape has that value as contents. */
  lemma CellsEqual(a: array2<real>, m: Matrix)
    requires IsMatrix(m, a.Length0, a.Length1)
    requires forall r, c :: 0 <= r < a.Length0 && 0 <= c < a.Length1 ==> a[r, c] == m[r][c]
    ensures Cells(a) == m
  {
    forall r | 0 <= r < a.Length0
      ensures Cells(a)[r] == m[r]
    {
    }
  }
}
