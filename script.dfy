/** main without its I/O: read the table, transpose it so that input lines
    become variables, compute the partial correlations and list one triple
    per pair of variables with j > i, in the order print emits them. */
module Script {
  import opened Wrappers
  import opened Linear
  import opened Pairs
  import opened PartialCorrelation
  import opened Table

  /** One output line `row_ids[i] row_ids[j] C[i,j]`. */
  datatype Triple = Triple(first: string, second: string, coefficient: real)

  /** The observation matrix of a table: `asarray(matrix).T`, whose column
      r is the r-th input row. */
  function Variables(t: Table): (c: Matrix)
    requires |t.rows| > 0 && forall r :: 0 <= r < |t.rows| ==> |t.rows[r]| == |t.rows[0]|
    ensures c.WellFormed() && c.cols == |t.rows| && c.Rows() == |t.rows[0]|
    ensures forall k, r :: 0 <= k < c.Rows() && 0 <= r < c.cols ==> c.cells[k][r] == t.rows[r][k]
  {
    Transpose(t.rows, |t.rows[0]|)
  }

  /** The output loop of main (partial_corr.py:109-112): runs over every (i, j) and
      keeps those with j > i, which is one triple per pair of PairOrder. */
  method EmitPairs(ids: seq<string>, P: array2<real>) returns (out: seq<Triple>)
    requires P.Length0 == |ids| && P.Length1 == |ids|
    ensures |out| == |PairOrder(|ids|)|
    ensures forall k :: 0 <= k < |out| ==>
              var (i, j) := PairOrder(|ids|)[k];
              out[k] == Triple(ids[i], ids[j], P[i, j])
  {
    var m := |ids|;
    out := [];
    ghost var pairs: seq<(nat, nat)> := [];
    for i := 0 to m
      invariant pairs == PairsBefore(i, m) && |out| == |pairs|
      invariant forall k :: 0 <= k < |out| ==> out[k] == Triple(ids[pairs[k].0], ids[pairs[k].1], P[pairs[k].0, pairs[k].1])
    {
      for j := 0 to m
        invariant pairs == PairsBefore(i, m) + Row(i, j) && |out| == |pairs|
        invariant forall k :: 0 <= k < |out| ==> out[k] == Triple(ids[pairs[k].0], ids[pairs[k].1], P[pairs[k].0, pairs[k].1])
      {
        if j > i {
          out := out + [Triple(ids[i], ids[j], P[i, j])];
          pairs := pairs + [(i, j)];
        }
      }
    }
  }

  /** main on the lines of standard input: for well-formed, non-empty input
      the p(p-1)/2 triples (id_i, id_j, coefficient of the pair) for i < j,
      ordered by i then j, where the variables are the input lines; otherwise
      the failure that stops the script. */
  method Run(lines: seq<string>, parse: string -> Option<real>, lstsq: Solver, pearson: Correlation)
    returns (r: Result<seq<Triple>, Failure>)
    requires ShapedSolver(lstsq)
    ensures r.Ok? <==> |lines| > 0 && WellFormedTable(lines, parse)
    ensures |lines| == 0 ==> r == Err(NoVariables)
    ensures r.Err? && |lines| > 0 ==> FirstFailure(lines, parse, r.error)
    ensures r.Ok? ==>
              var t := TableOf(lines, parse);
              var c := Variables(t);
              |r.value| == |PairOrder(|lines|)| == |lines| * (|lines| - 1) / 2 &&
              forall k :: 0 <= k < |r.value| ==>
                var (i, j) := PairOrder(|lines|)[k];
                r.value[k] == Triple(t.ids[i], t.ids[j], Coefficient(c, i, j, lstsq, pearson))
  {
    var table := ReadTable(lines, parse);
    if table.Err? {
      return Err(table.error);
    }
    var t := table.value;
    if |t.rows| == 0 {
      return Err(NoVariables);
    }
    assert LineFits(lines, parse, 0);
    var c := Variables(t);
    var P, _ := PartialCorr(c, lstsq, pearson);
    var out := EmitPairs(t.ids, P);
    PairOrderExact(|lines|);
    r := Ok(out);
  }

  /** The fields of a line that is a tab-join of fields without tabs,
      ending in a non-space character, plus a newline. */
  lemma FieldsOfLine(line: string, fs: seq<string>)
    requires |fs| >= 1 && forall k :: 0 <= k < |fs| ==> Tab !in fs[k]
    requires |fs[|fs| - 1]| > 0 && !IsSpace(fs[|fs| - 1][|fs[|fs| - 1]| - 1])
    requires line == Join(fs, Tab) + "\n"
    ensures Fields(line) == fs
  {
    JoinLast(fs, Tab);
    var s := Join(fs, Tab);
    assert line[..|line| - 1] == s;
    assert RStrip(line) == s;
    SplitJoin(fs, Tab);
  }

  /** A line of four one-character fields. */
  lemma FourFields(a: char, b: char, c: char, d: char)
    requires a != Tab && b != Tab && c != Tab && d != Tab && !IsSpace(d)
    ensures Fields([a, Tab, b, Tab, c, Tab, d, '\n']) == [[a], [b], [c], [d]]
  {
    var fs := [[a], [b], [c], [d]];
    assert fs[1..] == [[b], [c], [d]] && fs[1..][1..] == [[c], [d]] && fs[1..][1..][1..] == [[d]];
    assert Join([[d]], Tab) == [d];
    assert Join([[c], [d]], Tab) == [c, Tab, d];
    assert Join([[b], [c], [d]], Tab) == [b, Tab, c, Tab, d];
    assert Join(fs, Tab) == [a, Tab, b, Tab, c, Tab, d];
    FieldsOfLine([a, Tab, b, Tab, c, Tab, d, '\n'], fs);
  }

  /** The three-line input `A 1 2 3`, `B 2 4 5`, `C 1 3 2`, tab-separated
      and newline-terminated. */
  const ThreeLineInput: seq<string> := ["A\t1\t2\t3\n", "B\t2\t4\t5\n", "C\t1\t3\t2\n"]

  /** Each line of the three-line input fits: it parses and has three numbers. */
  lemma ThreeLinesFit(parse: string -> Option<real>, k: nat)
    requires parse("1").Some? && parse("2").Some? && parse("3").Some?
    requires parse("4").Some? && parse("5").Some?
    requires k < 3
    ensures LineFits(ThreeLineInput, parse, k)
    ensures RowId(ThreeLineInput[k]) == ["A", "B", "C"][k]
  {
    var fs := Fields(ThreeLineInput[k]);
    if k == 0 {
      FourFields('A', '1', '2', '3');
      assert fs == ["A", "1", "2", "3"];
    } else if k == 1 {
      FourFields('B', '2', '4', '5');
      assert fs == ["B", "2", "4", "5"];
    } else {
      FourFields('C', '1', '3', '2');
      assert fs == ["C", "1", "3", "2"];
    }
    assert forall f :: f in fs[1..] ==> parse(f).Some?;
    FourFields('A', '1', '2', '3');
    assert Fields(ThreeLineInput[0])[1..] == ["1", "2", "3"];
  }

  /** The three-line input is well-formed for any float() that accepts its
      numbers: its variables are A, B and C, and the output lists the pairs
      (A, B), (A, C), (B, C) in that order. */
  lemma ThreeLines(parse: string -> Option<real>)
    requires parse("1").Some? && parse("2").Some? && parse("3").Some?
    requires parse("4").Some? && parse("5").Some?
    ensures WellFormedTable(ThreeLineInput, parse)
    ensures TableOf(ThreeLineInput, parse).ids == ["A", "B", "C"]
    ensures PairOrder(|ThreeLineInput|) == [(0, 1), (0, 2), (1, 2)]
  {
    forall k | 0 <= k < 3
      ensures LineFits(ThreeLineInput, parse, k) && RowId(ThreeLineInput[k]) == ["A", "B", "C"][k]
    {
      ThreeLinesFit(parse, k);
    }
    var ids := TableOf(ThreeLineInput, parse).ids;
    assert |ids| == 3 && ids[0] == "A" && ids[1] == "B" && ids[2] == "C";
    PairOrderThree();
  }
}
