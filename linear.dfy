/** Exact real matrices and vectors: the numpy operations partial_corr uses
    around its library calls (column extraction, boolean column selection,
    matrix-vector product, subtraction and transposition). */
module Linear {

  /** An n-by-p matrix stored row by row. The width is kept apart from the
      rows so that a matrix with no rows still has a shape, as numpy's
      shape (0, p) does. */
  datatype Matrix = Matrix(cols: nat, cells: seq<seq<real>>) {
    function Rows(): nat { |cells| }

    /** Every row has exactly `cols` entries. */
    predicate WellFormed() {
      forall r :: 0 <= r < |cells| ==> |cells[r]| == cols
    }
  }

  /** The column `C[:, j]`. */
  function Column(m: Matrix, j: nat): seq<real>
    requires m.WellFormed() && j < m.cols
  {
    seq(|m.cells|, r requires 0 <= r < |m.cells| => m.cells[r][j])
  }

  /** The inner product of two vectors of the same length. */
  function Dot(u: seq<real>, v: seq<real>): real
    requires |u| == |v|
  {
    if |u| == 0 then 0.0 else u[0] * v[0] + Dot(u[1..], v[1..])
  }

  /** The matrix-vector product `Z.dot(beta)`. */
  function Apply(z: Matrix, beta: seq<real>): (y: seq<real>)
    requires z.WellFormed() && |beta| == z.cols
    ensures |y| == z.Rows()
  {
    seq(|z.cells|, r requires 0 <= r < |z.cells| => Dot(z.cells[r], beta))
  }

  /** The residual `y - Z.dot(beta)` of the target `y` against the fitted
      values of the coefficients `beta`. */
  function Residual(y: seq<real>, z: Matrix, beta: seq<real>): (res: seq<real>)
    requires z.WellFormed() && |beta| == z.cols && |y| == z.Rows()
    ensures |res| == |y|
    ensures forall r :: 0 <= r < |y| ==> Apply(z, beta)[r] + res[r] == y[r]
  {
    var fit := Apply(z, beta);
    seq(|y|, r requires 0 <= r < |y| => y[r] - fit[r])
  }

  /** With no regressor columns the fitted values are all zero and the
      residual is the target itself. */
  lemma ResidualNoControls(y: seq<real>, z: Matrix, beta: seq<real>)
    requires z.WellFormed() && z.cols == 0 && |beta| == 0 && |y| == z.Rows()
    ensures Residual(y, z, beta) == y
  {
  }

  /** The number of true entries of a boolean mask. */
  function CountTrue(mask: seq<bool>): nat
  {
    if |mask| == 0 then 0 else (if mask[0] then 1 else 0) + CountTrue(mask[1..])
  }

  /** Boolean indexing `s[mask]`: the entries of `s` where `mask` is true,
      in their original order. */
  function Select(s: seq<real>, mask: seq<bool>): (r: seq<real>)
    requires |s| == |mask|
    ensures |r| == CountTrue(mask)
  {
    if |s| == 0 then [] else (if mask[0] then [s[0]] else []) + Select(s[1..], mask[1..])
  }

  /** Selecting from a concatenation selects from each part. */
  lemma {:induction false} SelectAppend(s: seq<real>, m: seq<bool>, t: seq<real>, n: seq<bool>)
    requires |s| == |m| && |t| == |n|
    ensures Select(s + t, m + n) == Select(s, m) + Select(t, n)
  {
    if |s| == 0 {
      assert s + t == t && m + n == n;
    } else {
      assert (s + t)[1..] == s[1..] + t && (m + n)[1..] == m[1..] + n;
      SelectAppend(s[1..], m[1..], t, n);
    }
  }

  /** A mask that is true everywhere. */
  predicate AllTrue(mask: seq<bool>) {
    forall k :: 0 <= k < |mask| ==> mask[k]
  }

  /** A mask that is true everywhere keeps every entry. */
  lemma {:induction false} SelectAllTrue(s: seq<real>, m: seq<bool>)
    requires |s| == |m| && AllTrue(m)
    ensures Select(s, m) == s
  {
    if |s| > 0 {
      assert AllTrue(m[1..]);
      SelectAllTrue(s[1..], m[1..]);
    }
  }

  /** A mask that is false at one entry and true on everything after it
      drops that entry and keeps the rest. */
  lemma SelectDropOne(u: seq<real>, mu: seq<bool>, y: real, d: seq<real>, md: seq<bool>)
    requires |u| == |mu| && |d| == |md|
    requires AllTrue(md)
    ensures Select(u + [y] + d, mu + [false] + md) == Select(u, mu) + d
  {
    var front, mfront := u + [y], mu + [false];
    SelectAllTrue(d, md);
    assert Select([y], [false]) == [];
    SelectAppend(u, mu, [y], [false]);
    assert Select(front, mfront) == Select(u, mu);
    SelectAppend(front, mfront, d, md);
  }

  /** A sequence is its parts before, at, between, at and after i < j. */
  lemma Around<T>(s: seq<T>, i: nat, j: nat)
    requires i < j < |s|
    ensures s == s[..i] + [s[i]] + s[i+1..j] + [s[j]] + s[j+1..]
  {
  }

  /** The sub-matrix `C[:, mask]` of the columns where `mask` is true. */
  function SelectColumns(c: Matrix, mask: seq<bool>): (z: Matrix)
    requires c.WellFormed() && |mask| == c.cols
    ensures z.WellFormed() && z.Rows() == c.Rows() && z.cols == CountTrue(mask)
  {
    Matrix(CountTrue(mask),
           seq(|c.cells|, r requires 0 <= r < |c.cells| => Select(c.cells[r], mask)))
  }

  /** `asarray(rows).T`: the matrix whose column r is the r-th row. */
  function Transpose(rows: seq<seq<real>>, width: nat): (t: Matrix)
    requires forall r :: 0 <= r < |rows| ==> |rows[r]| == width
    ensures t.WellFormed() && t.cols == |rows| && t.Rows() == width
    ensures forall k, r :: 0 <= k < width && 0 <= r < |rows| ==> t.cells[k][r] == rows[r][k]
  {
    Matrix(|rows|, seq(width, k requires 0 <= k < width =>
                         seq(|rows|, r requires 0 <= r < |rows| => rows[r][k])))
  }

  /** Transposing twice gives back the rows. */
  lemma TransposeTwice(rows: seq<seq<real>>, width: nat)
    requires forall r :: 0 <= r < |rows| ==> |rows[r]| == width
    ensures Transpose(Transpose(rows, width).cells, |rows|).cells == rows
  {
    var back := Transpose(Transpose(rows, width).cells, |rows|).cells;
    forall r | 0 <= r < |rows| ensures back[r] == rows[r] {
    }
  }
}
