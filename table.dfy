/** The input side of main: each line of standard input has its trailing
    whitespace stripped and is split on tabs; the first field is the row
    identifier and the others are parsed as floats. Every row must have
    as many numbers as the first. The stream itself and float() are
    outside the model: the lines arrive as a sequence and float() is a
    parameter that returns None where it would raise ValueError. */
module Table {
  import opened Wrappers

  const Tab: char := '\t'

  /** The characters str.rstrip() removes (Python 2 byte strings). */
  predicate IsSpace(c: char) {
    c == ' ' || c == '\t' || c == '\n' || c == '\r' || c == '\U{B}' || c == '\U{C}'
  }

  /** `line.rstrip()`: the longest prefix of s that does not end in whitespace. */
  function RStrip(s: string): (r: string)
    ensures r <= s
    ensures r == [] || !IsSpace(r[|r| - 1])
    ensures forall k :: |r| <= k < |s| ==> IsSpace(s[k])
  {
    if |s| > 0 && IsSpace(s[|s| - 1]) then RStrip(s[..|s| - 1]) else s
  }

  /** `s.split(sep)`: the pieces of s between occurrences of sep; always at
      least one piece, and no piece contains sep. */
  function Split(s: string, sep: char): (fs: seq<string>)
    ensures |fs| >= 1
    ensures forall k :: 0 <= k < |fs| ==> sep !in fs[k]
  {
    if |s| == 0 then [[]]
    else
      var rest := Split(s[1..], sep);
      if s[0] == sep then [[]] + rest
      else [[s[0]] + rest[0]] + rest[1..]
  }

  /** `sep.join(fs)`. */
  function Join(fs: seq<string>, sep: char): string
    requires |fs| >= 1
  {
    if |fs| == 1 then fs[0] else fs[0] + [sep] + Join(fs[1..], sep)
  }

  /** A join whose last piece is not empty ends with that piece's last
      character. */
  lemma {:induction false} JoinLast(fs: seq<string>, sep: char)
    requires |fs| >= 1 && |fs[|fs| - 1]| > 0
    ensures |Join(fs, sep)| > 0
    ensures Join(fs, sep)[|Join(fs, sep)| - 1] == fs[|fs| - 1][|fs[|fs| - 1]| - 1]
  {
    if |fs| > 1 {
      JoinLast(fs[1..], sep);
    }
  }

  /** Joining the pieces of a split gives back the string. */
  lemma {:induction false} JoinSplit(s: string, sep: char)
    ensures Join(Split(s, sep), sep) == s
  {
    if |s| > 0 {
      JoinSplit(s[1..], sep);
      var rest := Split(s[1..], sep);
      if s[0] == sep {
        assert ([[]] + rest)[1..] == rest;
      } else {
        var fs := [[s[0]] + rest[0]] + rest[1..];
        if |rest| > 1 {
          assert fs[1..] == rest[1..];
        }
      }
    }
  }

  /** A piece without sep, followed by sep, starts a new piece. */
  lemma {:induction false} SplitPiece(f: string, sep: char, rest: string)
    requires sep !in f
    ensures Split(f + [sep] + rest, sep) == [f] + Split(rest, sep)
  {
    if |f| > 0 {
      assert (f + [sep] + rest)[1..] == f[1..] + [sep] + rest;
      SplitPiece(f[1..], sep, rest);
      assert [f[0]] + f[1..] == f;
    } else {
      assert f + [sep] + rest == [sep] + rest;
      assert ([sep] + rest)[1..] == rest;
    }
  }

  /** A string without sep is a single piece. */
  lemma {:induction false} SplitWhole(f: string, sep: char)
    requires sep !in f
    ensures Split(f, sep) == [f]
  {
    if |f| > 0 {
      SplitWhole(f[1..], sep);
      assert [f[0]] + f[1..] == f;
    }
  }

  /** Splitting a join of pieces without sep gives back the pieces. */
  lemma {:induction false} SplitJoin(fs: seq<string>, sep: char)
    requires |fs| >= 1 && forall k :: 0 <= k < |fs| ==> sep !in fs[k]
    ensures Split(Join(fs, sep), sep) == fs
  {
    if |fs| == 1 {
      SplitWhole(fs[0], sep);
    } else {
      SplitJoin(fs[1..], sep);
      SplitPiece(fs[0], sep, Join(fs[1..], sep));
      assert [fs[0]] + fs[1..] == fs;
    }
  }

  /** `[float(c) for c in fields]`: None as soon as one field does not parse. */
  function ParseFields(fields: seq<string>, parse: string -> Option<real>): (r: Option<seq<real>>)
    ensures r.Some? <==> forall k :: 0 <= k < |fields| ==> parse(fields[k]).Some?
    ensures r.Some? ==> (|r.value| == |fields| &&
                         forall k :: 0 <= k < |fields| ==> parse(fields[k]) == Some(r.value[k]))
  {
    if |fields| == 0 then Some([])
    else match (parse(fields[0]), ParseFields(fields[1..], parse))
      case (Some(v), Some(vs)) => Some([v] + vs)
      case _ => None
  }

  /** The tab-separated fields of a line after rstrip. */
  function Fields(line: string): (fs: seq<string>)
    ensures |fs| >= 1
  {
    Split(RStrip(line), Tab)
  }

  /** The row identifier `cols.pop(0)`. */
  function RowId(line: string): string {
    Fields(line)[0]
  }

  /** The numbers of a line, or None where float() raises. */
  function RowValues(line: string, parse: string -> Option<real>): Option<seq<real>> {
    ParseFields(Fields(line)[1..], parse)
  }

  /** Line k parses and has as many numbers as line 0. */
  predicate LineFits(lines: seq<string>, parse: string -> Option<real>, k: nat)
    requires k < |lines|
  {
    RowValues(lines[k], parse).Some? && RowValues(lines[0], parse).Some? &&
    |RowValues(lines[k], parse).value| == |RowValues(lines[0], parse).value|
  }

  /** Every line parses and all rows have the width of the first. */
  predicate WellFormedTable(lines: seq<string>, parse: string -> Option<real>) {
    forall k :: 0 <= k < |lines| ==> LineFits(lines, parse, k)
  }

  /** What the reading loop collects: `row_ids` and `matrix`. */
  datatype Table = Table(ids: seq<string>, rows: seq<seq<real>>)

  /** The table of well-formed input: one identifier and one row per line,
      in input order. */
  function TableOf(lines: seq<string>, parse: string -> Option<real>): (t: Table)
    requires WellFormedTable(lines, parse)
    ensures |t.ids| == |t.rows| == |lines|
    ensures forall k :: 0 <= k < |lines| ==> |t.rows[k]| == |t.rows[0]|
  {
    Table(seq(|lines|, k requires 0 <= k < |lines| => RowId(lines[k])),
          seq(|lines|, k requires 0 <= k < |lines| && LineFits(lines, parse, k) =>
                RowValues(lines[k], parse).value))
  }

  /** Why a run of the script stops without output: float() raised
      ValueError on a line, the width assertion failed on a line, or there
      was no input line at all (C.shape[1] raises IndexError). */
  datatype Failure = BadNumber(line: nat) | RaggedRow(line: nat) | NoVariables

  /** The failure e is the one the reading loop meets first: the lines
      before it are fine, and line e.line fails in the way e says; float()
      is applied before the width is checked. */
  predicate FirstFailure(lines: seq<string>, parse: string -> Option<real>, e: Failure) {
    !e.NoVariables? && e.line < |lines| &&
    (forall k :: 0 <= k < e.line ==> LineFits(lines, parse, k)) &&
    (e.BadNumber? ==> RowValues(lines[e.line], parse).None?) &&
    (e.RaggedRow? ==> 0 < e.line && RowValues(lines[e.line], parse).Some? &&
                      !LineFits(lines, parse, e.line))
  }

  /** The reading loop of main (partial_corr.py:94-104): the table of a well-formed
      input, otherwise the first failure of the loop. */
  method ReadTable(lines: seq<string>, parse: string -> Option<real>)
    returns (r: Result<Table, Failure>)
    ensures r.Ok? <==> WellFormedTable(lines, parse)
    ensures r.Ok? ==> r.value == TableOf(lines, parse)
    ensures r.Err? ==> FirstFailure(lines, parse, r.error)
  {
    var colsLen: Option<nat> := None;
    var matrix: seq<seq<real>> := [];
    var rowIds: seq<string> := [];
    for n := 0 to |lines|
      invariant |rowIds| == |matrix| == n
      invariant forall k :: 0 <= k < n ==> LineFits(lines, parse, k)
      invariant n == 0 <==> colsLen.None?
      invariant n > 0 ==> LineFits(lines, parse, 0) && colsLen == Some(|RowValues(lines[0], parse).value|)
      invariant forall k :: 0 <= k < n ==> rowIds[k] == RowId(lines[k])
      invariant forall k :: 0 <= k < n ==> Some(matrix[k]) == RowValues(lines[k], parse)
    {
      var cols := Split(RStrip(lines[n]), Tab);
      rowIds := rowIds + [cols[0]];
      cols := cols[1..];
      var values := ParseFields(cols, parse);
      if values.None? {
        assert !LineFits(lines, parse, n);
        return Err(BadNumber(n));
      }
      if colsLen.None? {
        colsLen := Some(|values.value|);
      }
      if colsLen.value != |values.value| {
        assert !LineFits(lines, parse, n);
        return Err(RaggedRow(n));
      }
      matrix := matrix + [values.value];
    }
    r := Ok(Table(rowIds, matrix));
  }
}
