# partial_corr in Dafny

A model of the script `partial_corr.py`, which computes the sample partial
correlation of every pair of variables in a matrix, each pair controlled for
all the other variables by linear regression. It covers two pieces:

- `partial_corr(C)`. For an n-by-p observation matrix C (columns are
  variables), it fills a p-by-p array in place. The diagonal is 1. For each
  pair i < j it builds a boolean mask of every other column, regresses
  column i and column j on the selected columns, and stores the correlation
  of the two residuals at `[i, j]` and `[j, i]`.
- `main` without its I/O. It strips trailing whitespace from each input
  line and splits it on tabs. The first field is the row identifier and the
  rest are parsed as floats. It checks that every row has the width of the
  first, transposes the rows so that input lines become variables, and lists
  `(id_i, id_j, coefficient)` for every pair j > i in the order `print`
  emits them.

The arithmetic is exact (`real`). The numeric library calls are parameters
of the model and are left uninterpreted:

- `Solver` is `linalg.lstsq(Z, y)[0]`. It is assumed to return one
  coefficient per column of Z (`ShapedSolver`).
- `Correlation` is `stats.pearsonr(u, v)[0]`.
- `float()` becomes a function from a field to `Option<real>`. `None`
  stands where `float()` raises `ValueError`.

Modules:

| file | module | content |
|---|---|---|
| wrappers.dfy | `Wrappers` | Option, Result |
| linear.dfy | `Linear` | the matrix type, column, dot product, residual, boolean selection, transpose |
| pairs.dfy | `Pairs` | the pair order (i, j), i < j, of the nested loops |
| partial_corr.dfy | `PartialCorrelation` | the mask, the pairing of residuals and the loop of `partial_corr` |
| table.dfy | `Table` | rstrip, split, float parsing and the reading loop of `main` |
| script.dfy | `Script` | transposition, the output loop and the whole of `main` |

Two behaviours of the code shape the model:

- `partial_corr` does not check that C is rectangular. Here that is a
  precondition (`WellFormed`). The only caller builds C from rows whose
  equal width is asserted.
- With no input lines at all, `np.asarray([]).T` is one-dimensional and
  `C.shape[1]` raises `IndexError`. The script then stops without output.
  The model reports this as `Failure.NoVariables` and does not return an
  empty result.

## Model

| member | source | states |
|---|---|---|
| `PartialCorrelation.PartialCorr` | partial_corr.py:57-76 | The result is p-by-p for the p columns of C. Every diagonal entry is 1 and the matrix is symmetric. Entry [a, b] with a < b is `pearson(res_a, res_b)`, in that argument order. Each residual is its own column minus Z times `lstsq(Z, that column)`, with Z the columns selected for the pair. The ghost trace of computed pairs equals `PairOrder(p)`, so each pair is computed once, by i then j. P is a newly allocated array, so it aliases nothing the caller holds; C is a value and is not changed. |
| `PartialCorrelation.PairCoefficient` | partial_corr.py:63-72 | One inner iteration: it builds the mask in an array, selects `C[:, idx]`, fits both columns and correlates the residuals. The result equals `Coefficient(C, i, j)`. |
| `PartialCorrelation.MaskCount` | partial_corr.py:63-65 | The mask of pair (i, j) has length p and is true exactly at the indices other than i and j. It selects p - 2 columns, and none when p = 2. |
| `PartialCorrelation.MaskedRow` | partial_corr.py:63-66 | Selecting a row with the mask of (i, j) gives the row with entries i and j removed, the others kept in order. |
| `PartialCorrelation.ControlColumns` | partial_corr.py:63-66 | The controlling matrix of pair (i, j) has p - 2 columns. Its column m is column m, m + 1 or m + 2 of C, skipping i and j. |
| `Linear.Select` | partial_corr.py:66 | Boolean indexing keeps as many entries as the mask has true values. |
| `Linear.SelectColumns` | partial_corr.py:66-67 | `C[:, idx]` keeps every row of C and has one column per true entry of the mask. |
| `Linear.ResidualNoControls` | partial_corr.py:69-70 | With no controlling columns (Z has zero columns, so the coefficient vector is empty) the residual is the target column itself. |
| `PartialCorrelation.TwoVariables` | partial_corr.py:63-72 | With two variables nothing is controlled for, so the partial correlation of (0, 1) is `pearson` of the two columns themselves, given a solver of the right shape. |
| `Linear.Transpose` | partial_corr.py:106-107 | The transpose of the collected rows has one column per input line and one row per field: `C[k][r] == matrix[r][k]`. |
| `Linear.TransposeTwice` | partial_corr.py:107 | Transposing twice gives back the rows. |
| `Pairs.PairOrderExact` | partial_corr.py:60-62 | The loop pairs are exactly the (i, j) with i < j < p. They are strictly increasing by i then j, so no pair repeats, and there are p(p-1)/2 of them. |
| `Pairs.PairsBeforeMembers` | partial_corr.py:60-62 | After i outer iterations the pairs visited are exactly those with first index below i. |
| `Pairs.PairsBeforeLength` | partial_corr.py:60-62 | After i outer iterations, twice the number of pairs visited is i(2p - i - 1). |
| `Table.RStrip` | partial_corr.py:98 | The result is a prefix of the line, does not end in whitespace, and everything it drops is whitespace. |
| `Table.Split` | partial_corr.py:98 | Splitting on tabs gives at least one field, so `pop(0)` always succeeds, and no field contains a tab. |
| `Table.JoinSplit` | partial_corr.py:98 | Joining the fields of a split with tabs gives back the stripped line. |
| `Table.SplitJoin` | partial_corr.py:98 | Splitting a tab-join of tab-free fields gives back the fields. |
| `Table.ParseFields` | partial_corr.py:100 | The row parses exactly when every field parses. Then it has one number per field, each the parse of its field. |
| `Table.TableOf` | partial_corr.py:99-104 | Well-formed input gives one identifier and one row per line, in input order, all rows of the first row's width. |
| `Table.ReadTable` | partial_corr.py:94-104 | The result is Ok exactly when every line parses and has the first line's width, and then it is `TableOf(lines)`. Otherwise it names the first failing line: `BadNumber` if `float()` fails there (checked first), or `RaggedRow` if its width differs from line 0's. Every earlier line is fine. |
| `Script.Variables` | partial_corr.py:106-107 | The table form of `Linear.Transpose`: the observation matrix of a table has one variable (column) per input line and one observation per field, with `C[k][r]` equal to field k of line r. |
| `Script.EmitPairs` | partial_corr.py:109-112 | The output has one triple per entry of `PairOrder(m)`, in that order. Triple k is `(ids[i], ids[j], P[i, j])` for the k-th pair, so there is no diagonal or lower-triangle entry. |
| `Script.ThreeLines` | partial_corr.py:94-112 | For the input lines `A 1 2 3`, `B 2 4 5` and `C 1 3 2` (tab-separated and newline-terminated), and any `float()` that accepts their numbers, the table is well-formed. Its identifiers are A, B and C, and the output pairs are (0, 1), (0, 2), (1, 2), that is (A, B), (A, C), (B, C). |
| `Script.Run` | partial_corr.py:94-112 | The result is Ok exactly when the input is non-empty and well-formed. It then holds p(p-1)/2 triples, ordered by i then j, each `(id_i, id_j, Coefficient(C, i, j))` for the transposed table C. Empty input gives `NoVariables`. Any other failure is the first failing line, as `ReadTable` reports it. |

## Left out

- `linalg.lstsq` (SVD/LAPACK) and `stats.pearsonr` are floating-point library code with no visible source. They are uninterpreted parameters. Their range in [-1, 1] and their NaN or rank-deficiency behaviour are properties of those libraries and are not stated. (The reduction to plain correlation for p = 2 does follow from the code and is `TwoVariables`.)
- `PartialCorrelation.PartialCorr`: assumes the solver returns one coefficient per column of Z. scipy returns a solution of that shape, and `.dot` would raise otherwise.
- `Script.Run` and `PartialCorrelation.PartialCorr`: lstsq and pearsonr are taken as total functions. Their exceptions (`ValueError` from `check_finite` on non-finite input, `LinAlgError` when the fit fails) are not modelled, so Run's "Ok exactly when the input is non-empty and well-formed" holds for finite input only.
- `float(c)` is a parameter. Its accepted syntax, including `nan`, `inf` and surrounding spaces, is not modelled.
- Floating point is replaced by exact reals: the dot products, subtraction and the stored `1`. Rounding and summation order are not modelled.
- Reading lines from standard input and printing to standard output are stream I/O. The model takes the lines (each with its newline, as iteration yields them) as a sequence and returns the printed triples, not the formatted text.
- `OptionParser`, the usage text and the `exit` on unexpected arguments are command-line plumbing.
- numpy dtypes (`np.float`, `np.bool`, `np.asarray`) are representation only. They become `real`, `bool` arrays and the `Matrix` value.
