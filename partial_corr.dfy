/** The function partial_corr: the p-by-p matrix of partial correlations
    between the columns of an n-by-p observation matrix C, each pair
    controlled for all the other columns by linear regression. The
    least-squares solver and the Pearson correlation are library calls and
    are taken as parameters. */
module PartialCorrelation {
  import opened Linear
  import opened Pairs

  /** `linalg.lstsq(Z, y)[0]`: least-squares coefficients of y on the columns of Z. */
  type Solver = (Matrix, seq<real>) -> seq<real>

  /** `stats.pearsonr(u, v)[0]`: the correlation coefficient of two vectors. */
  type Correlation = (seq<real>, seq<real>) -> real

  /** The solver returns one coefficient per column of Z, as lstsq does. */
  ghost predicate ShapedSolver(lstsq: Solver) {
    forall z: Matrix, y: seq<real> :: |lstsq(z, y)| == z.cols
  }

  /** The mask `idx` of pair (i, j): true everywhere except at i and j. */
  function ControlMask(p: nat, i: nat, j: nat): seq<bool>
  {
    seq(p, k => k != i && k != j)
  }

  /** The controlling columns `C[:, idx]` of pair (i, j). */
  function Controls(c: Matrix, i: nat, j: nat): (z: Matrix)
    requires c.WellFormed()
    ensures z.WellFormed() && z.Rows() == c.Rows()
  {
    SelectColumns(c, ControlMask(c.cols, i, j))
  }

  /** The residual of y against its own least-squares fit on Z. */
  function OwnResidual(lstsq: Solver, z: Matrix, y: seq<real>): (res: seq<real>)
    requires ShapedSolver(lstsq) && z.WellFormed() && |y| == z.Rows()
    ensures |res| == |y|
  {
    Residual(y, z, lstsq(z, y))
  }

  /** The coefficient partial_corr stores for the pair i < j: the correlation
      of the residual of column i with the residual of column j, each taken
      against its own regression on the other columns. */
  function Coefficient(c: Matrix, i: nat, j: nat, lstsq: Solver, pearson: Correlation): real
    requires c.WellFormed() && i < j < c.cols && ShapedSolver(lstsq)
  {
    var z := Controls(c, i, j);
    pearson(OwnResidual(lstsq, z, Column(c, i)), OwnResidual(lstsq, z, Column(c, j)))
  }

  /** The entry [a, b] of the result: 1 on the diagonal, the coefficient of
      the ordered pair elsewhere. */
  function Expected(c: Matrix, a: nat, b: nat, lstsq: Solver, pearson: Correlation): real
    requires c.WellFormed() && a < c.cols && b < c.cols && ShapedSolver(lstsq)
  {
    if a == b then 1.0
    else if a < b then Coefficient(c, a, b, lstsq, pearson)
    else Coefficient(c, b, a, lstsq, pearson)
  }

  /** The mask of pair (i, j) is false at i and j and true on the three
      stretches around them. */
  lemma MaskAround(p: nat, i: nat, j: nat)
    requires i < j < p
    ensures var m := ControlMask(p, i, j);
            m == m[..i] + [false] + m[i+1..j] + [false] + m[j+1..] &&
            AllTrue(m[..i]) && AllTrue(m[i+1..j]) && AllTrue(m[j+1..])
  {
  }

  /** The mask of pair (i, j) drops entries i and j of a row and keeps the
      others in order. */
  lemma MaskedRow(s: seq<real>, i: nat, j: nat)
    requires i < j < |s|
    ensures Select(s, ControlMask(|s|, i, j)) == s[..i] + s[i+1..j] + s[j+1..]
  {
    var m := ControlMask(|s|, i, j);
    Around(s, i, j);
    MaskAround(|s|, i, j);
    var ma, mb, md := m[..i], m[i+1..j], m[j+1..];
    SelectDropOne(s[..i] + [s[i]] + s[i+1..j], ma + [false] + mb, s[j], s[j+1..], md);
    SelectDropOne(s[..i], ma, s[i], s[i+1..j], mb);
    SelectAllTrue(s[..i], ma);
  }

  /** The mask of pair (i, j) is true at every index but i and j, so it
      selects exactly p - 2 columns (none when p = 2). */
  lemma MaskCount(p: nat, i: nat, j: nat)
    requires i < j < p
    ensures |ControlMask(p, i, j)| == p
    ensures forall k :: 0 <= k < p ==> (ControlMask(p, i, j)[k] <==> k != i && k != j)
    ensures CountTrue(ControlMask(p, i, j)) == p - 2
    ensures p == 2 ==> forall k :: 0 <= k < p ==> !ControlMask(p, i, j)[k]
  {
    var s := seq(p, _ => 0.0);
    MaskedRow(s, i, j);
  }

  /** The controlling matrix of pair (i, j) holds the p - 2 columns of C
      other than i and j, in their original order. */
  lemma ControlColumns(c: Matrix, i: nat, j: nat)
    requires c.WellFormed() && i < j < c.cols
    ensures Controls(c, i, j).cols == c.cols - 2
    ensures forall r, m :: 0 <= r < c.Rows() && 0 <= m < c.cols - 2 ==>
              Controls(c, i, j).cells[r][m] == c.cells[r][if m < i then m else if m < j - 1 then m + 1 else m + 2]
  {
    MaskCount(c.cols, i, j);
    forall r | 0 <= r < c.Rows()
      ensures Controls(c, i, j).cells[r] == c.cells[r][..i] + c.cells[r][i+1..j] + c.cells[r][j+1..]
    {
      MaskedRow(c.cells[r], i, j);
    }
  }

  /** With two variables nothing is controlled for: the coefficient of the
      pair (0, 1) is the correlation of the two columns themselves. */
  lemma TwoVariables(c: Matrix, lstsq: Solver, pearson: Correlation)
    requires c.WellFormed() && c.cols == 2 && ShapedSolver(lstsq)
    ensures Coefficient(c, 0, 1, lstsq, pearson) == pearson(Column(c, 0), Column(c, 1))
  {
    MaskCount(2, 0, 1);
    var z := Controls(c, 0, 1);
    assert z.cols == 0;
    ResidualNoControls(Column(c, 0), z, lstsq(z, Column(c, 0)));
    ResidualNoControls(Column(c, 1), z, lstsq(z, Column(c, 1)));
  }

  /** One iteration of the inner loop before the writes: build the mask of
      pair (i, j), regress both columns on the selected columns and
      correlate the two residuals. */
  method PairCoefficient(c: Matrix, i: nat, j: nat, lstsq: Solver, pearson: Correlation)
    returns (corr: real)
    requires c.WellFormed() && i < j < c.cols && ShapedSolver(lstsq)
    ensures corr == Coefficient(c, i, j, lstsq, pearson)
  {
    var idx := new bool[c.cols](_ => true);
    idx[i] := false;
    idx[j] := false;
    assert idx[..] == ControlMask(c.cols, i, j);
    var z := SelectColumns(c, idx[..]);
    var betaI := lstsq(z, Column(c, j));
    var betaJ := lstsq(z, Column(c, i));
    var resJ := Residual(Column(c, j), z, betaI);
    var resI := Residual(Column(c, i), z, betaJ);
    corr := pearson(resI, resJ);
  }

  /** partial_corr(C): the result is p-by-p with a unit diagonal and is
      symmetric; entry [i, j] with i < j is the correlation, in that
      argument order, of the residuals of columns i and j, each against its
      own least-squares fit on the same controlling columns; the pairs are
      computed once each, in the order i, then j. P is newly allocated;
      C is a value and is not changed. */
  method PartialCorr(c: Matrix, lstsq: Solver, pearson: Correlation)
    returns (P: array2<real>, ghost computed: seq<(nat, nat)>)
    requires c.WellFormed() && ShapedSolver(lstsq)
    ensures fresh(P)
    ensures P.Length0 == c.cols && P.Length1 == c.cols
    ensures forall a :: 0 <= a < c.cols ==> P[a, a] == 1.0
    ensures forall a, b :: 0 <= a < c.cols && 0 <= b < c.cols ==> P[a, b] == P[b, a]
    ensures forall a, b :: 0 <= a < b < c.cols ==>
              var z := Controls(c, a, b);
              var ya, yb := Column(c, a), Column(c, b);
              P[a, b] == pearson(Residual(ya, z, lstsq(z, ya)), Residual(yb, z, lstsq(z, yb)))
    ensures computed == PairOrder(c.cols)
  {
    var p := c.cols;
    P := new real[p, p]((_, _) => 0.0);
    computed := [];
    for i := 0 to p
      invariant P.Length0 == p && P.Length1 == p
      invariant computed == PairsBefore(i, p)
      invariant forall a, b :: 0 <= a < p && 0 <= b < p ==>
                  P[a, b] == if a < i || b < i then Expected(c, a, b, lstsq, pearson) else 0.0
    {
      P[i, i] := 1.0;
      for j := i + 1 to p
        invariant computed == PairsBefore(i, p) + Row(i, j)
        invariant forall a, b :: 0 <= a < p && 0 <= b < p ==>
                    P[a, b] == if a < i || b < i || (a == i && b < j) || (b == i && a < j)
                               then Expected(c, a, b, lstsq, pearson) else 0.0
      {
        var corr := PairCoefficient(c, i, j, lstsq, pearson);
        P[i, j] := corr;
        P[j, i] := corr;
        computed := computed + [(i, j)];
      }
    }
  }
}
