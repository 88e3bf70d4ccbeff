/**
 * Totals insertion `inserir_totais_na_coluna` (app2.py:71-109): when the value
 * column exists and its amounts, read by `_to_float`, add up to something other
 * than zero, two marker rows are appended: "Valor Total (R$)" with the en-US
 * rendering of the sum, and "Em dobro (R$)" with twice the sum. Then every row
 * described by a marker label has its other columns blanked.
 */
module Totals {
  import opened Text
  import Amounts

  const DescColumn: string := "DESCRIÇÃO"
  const TotalLabel: string := "Valor Total (R$)"
  const DoubleLabel: string := "Em dobro (R$)"
  /** How a missing cell (NaN) that `pd.concat` introduces reads as text. */
  const Missing: string := "nan"

  /** A table of text cells: column names and rows. */
  datatype Table = Table(columns: seq<string>, rows: seq<seq<string>>)

  ghost predicate WellFormed(t: Table)
  {
    forall i :: 0 <= i < |t.rows| ==> |t.rows[i]| == |t.columns|
  }

  ghost predicate DistinctColumns(columns: seq<string>)
  {
    forall i, j :: 0 <= i < j < |columns| ==> columns[i] != columns[j]
  }

  /** Position of column `name`, or `|columns|` when absent. */
  function Position(columns: seq<string>, name: string): (k: nat)
    ensures k <= |columns|
    ensures k < |columns| ==> columns[k] == name
    ensures k == |columns| <==> name !in columns
  {
    if columns == [] then 0
    else if columns[0] == name then 0
    else 1 + Position(columns[1..], name)
  }

  predicate IsMarker(desc: string)
  {
    desc == TotalLabel || desc == DoubleLabel
  }

  /** `vals.sum()` over the amounts of column `k`, each read by `_to_float`. */
  function ColumnSum(rows: seq<seq<string>>, k: nat): real
    requires forall i :: 0 <= i < |rows| ==> k < |rows[i]|
  {
    if rows == [] then 0.0
    else ColumnSum(rows[..|rows| - 1], k) + Amounts.ToFloat(rows[|rows| - 1][k])
  }

  /** The row `pd.concat` appends: `amount` under the value column, `caption` under
      DESCRIÇÃO, a missing value elsewhere. */
  function MarkerRow(columns: seq<string>, value: string, caption: string, amount: string): (row: seq<string>)
    ensures |row| == |columns|
  {
    seq(|columns|, k requires 0 <= k < |columns| =>
      if columns[k] == value then amount else if columns[k] == DescColumn then caption else Missing)
  }

  /** Column `c` is one the marker rows have blanked: neither DESCRIÇÃO nor the value column. */
  predicate Omitted(columns: seq<string>, value: string, c: nat)
    requires c < |columns|
  {
    columns[c] != DescColumn && columns[c] != value
  }

  /** The mask step for one row: a row described by a marker label loses its omitted cells. */
  function BlankRow(columns: seq<string>, value: string, row: seq<string>): (r: seq<string>)
    requires |row| == |columns| && DescColumn in columns
    ensures |r| == |row|
  {
    var d := Position(columns, DescColumn);
    seq(|row|, k requires 0 <= k < |row| =>
      if IsMarker(row[d]) && Omitted(columns, value, k) then "" else row[k])
  }

  /** The two rows `pd.concat` appends, given the rendered total and its double. */
  function MarkerRows(columns: seq<string>, value: string, total: string, double: string): (rows: seq<seq<string>>)
    ensures |rows| == 2 && |rows[0]| == |rows[1]| == |columns|
  {
    [MarkerRow(columns, value, TotalLabel, total), MarkerRow(columns, value, DoubleLabel, double)]
  }

  /** The `.loc` loop's effect on the whole table. */
  function BlankAll(columns: seq<string>, value: string, rows: seq<seq<string>>): (r: seq<seq<string>>)
    requires DescColumn in columns
    requires forall i :: 0 <= i < |rows| ==> |rows[i]| == |columns|
    ensures |r| == |rows|
  {
    seq(|rows|, i requires 0 <= i < |rows| => BlankRow(columns, value, rows[i]))
  }

  /** The table `inserir_totais_na_coluna` returns. */
  function Totals(t: Table, value: string): Table
    requires WellFormed(t) && DescColumn in t.columns
  {
    if value !in t.columns then t
    else TotalsFor(t, value, ColumnSum(t.rows, Position(t.columns, value)))
  }

  /** The table once the column's sum is known: unchanged for a zero sum, else finished with
      the en-US renderings of the sum and of its double (`en_us_format`). */
  function TotalsFor(t: Table, value: string, sum: real): Table
    requires WellFormed(t) && DescColumn in t.columns
  {
    if sum == 0.0 then t
    else Finish(t.columns, value, t.rows, Amounts.EnUsFormat(sum), Amounts.EnUsFormat(2.0 * sum))
  }

  /** The table once the sum is known to be non-zero and rendered: the marker rows appended,
      then the rows a marker label describes blanked. */
  function Finish(columns: seq<string>, value: string, rows: seq<seq<string>>, total: string, double: string): Table
    requires DescColumn in columns
    requires forall i :: 0 <= i < |rows| ==> |rows[i]| == |columns|
  {
    Table(columns, BlankAll(columns, value, rows + MarkerRows(columns, value, total, double)))
  }

  /** `df[coluna_valor].apply(_to_float).sum()`. */
  method SumColumn(rows: seq<seq<string>>, k: nat) returns (sum: real)
    requires forall i :: 0 <= i < |rows| ==> k < |rows[i]|
    ensures sum == ColumnSum(rows, k)
  {
    sum := 0.0;
    var i := 0;
    while i < |rows|
      invariant 0 <= i <= |rows|
      invariant sum == ColumnSum(rows[..i], k)
    {
      ColumnSumStep(rows, k, i);
      sum := sum + Amounts.ToFloat(rows[i][k]);
      i := i + 1;
    }
    assert rows[..i] == rows;
  }

  /** The sum over one more row adds that row's amount. */
  lemma ColumnSumStep(rows: seq<seq<string>>, k: nat, i: nat)
    requires forall j :: 0 <= j < |rows| ==> k < |rows[j]|
    requires i < |rows|
    ensures ColumnSum(rows[..i + 1], k) == ColumnSum(rows[..i], k) + Amounts.ToFloat(rows[i][k])
  {
    assert rows[..i + 1][..i] == rows[..i];
  }

  /** A sum over the rows in order, each row read by `f`. */
  function SumBy<T>(rows: seq<T>, f: T -> real): real
  {
    if rows == [] then 0.0 else SumBy(rows[..|rows| - 1], f) + f(rows[|rows| - 1])
  }

  /** The amount `_to_float` reads in column `k` of a row (0 for a row without it). */
  function AmountAt(k: nat): seq<string> -> real
  {
    row => if k < |row| then Amounts.ToFloat(row[k]) else 0.0
  }

  /** The column sum is the sum of the rows' amounts in column `k`. */
  lemma {:induction false} ColumnSumBy(rows: seq<seq<string>>, k: nat)
    requires forall i :: 0 <= i < |rows| ==> k < |rows[i]|
    ensures ColumnSum(rows, k) == SumBy(rows, AmountAt(k))
    decreases |rows|
  {
    if rows != [] {
      ColumnSumBy(rows[..|rows| - 1], k);
    }
  }

  /** Taking row `j` out of the rows takes its reading out of the sum. */
  lemma {:induction false} SumByRemove<T>(rows: seq<T>, f: T -> real, j: nat)
    requires j < |rows|
    ensures SumBy(rows, f) == SumBy(rows[..j] + rows[j + 1..], f) + f(rows[j])
    decreases |rows|
  {
    var n := |rows| - 1;
    var r := rows[..j] + rows[j + 1..];
    if j == n {
      assert r == rows[..n];
    } else {
      var c := rows[..n];
      SumByRemove(c, f, j);
      assert r[..|r| - 1] == c[..j] + c[j + 1..];
      assert r[|r| - 1] == rows[n];
    }
  }

  /** A sum does not depend on the order of the rows. */
  lemma {:induction false} SumByPermutation<T>(a: seq<T>, b: seq<T>, f: T -> real)
    requires multiset(a) == multiset(b)
    ensures SumBy(a, f) == SumBy(b, f)
    decreases |a|
  {
    if a == [] {
      assert |b| == |multiset(b)| == 0;
    } else {
      var n := |a| - 1;
      var x := a[n];
      assert a == a[..n] + [x];
      assert x in multiset(b);
      var j :| 0 <= j < |b| && b[j] == x;
      var rest := b[..j] + b[j + 1..];
      assert b == b[..j] + [x] + b[j + 1..];
      assert multiset(rest) == multiset(b) - multiset{x};
      assert multiset(a[..n]) == multiset(a) - multiset{x};
      SumByPermutation(a[..n], rest, f);
      SumByRemove(b, f, j);
    }
  }

  /** The total of a column does not depend on the order of the rows: any permutation of
      the table has the same sum. */
  lemma ColumnSumPermutation(a: seq<seq<string>>, b: seq<seq<string>>, k: nat)
    requires forall i :: 0 <= i < |a| ==> k < |a[i]|
    requires forall i :: 0 <= i < |b| ==> k < |b[i]|
    requires multiset(a) == multiset(b)
    ensures ColumnSum(a, k) == ColumnSum(b, k)
  {
    ColumnSumBy(a, k);
    ColumnSumBy(b, k);
    SumByPermutation(a, b, AmountAt(k));
  }

  /** The state of the blanking loop: the marker rows' omitted cells are blank in the
      columns before `c`, and in column `c` for the rows before `j`; every other cell is
      as in `rows0`. */
  ghost predicate Blanked(columns: seq<string>, value: string, rows0: seq<seq<string>>,
                          rows: seq<seq<string>>, d: nat, c: nat, j: nat)
  {
    && |rows| == |rows0|
    && (forall j' :: 0 <= j' < |rows| ==> |rows0[j']| == |columns| && |rows[j']| == |columns| && d < |columns|)
    && forall j', m {:trigger rows[j'][m]} :: 0 <= j' < |rows| && 0 <= m < |columns| ==>
         rows[j'][m] ==
           if (m < c || (m == c && j' < j)) && IsMarker(rows0[j'][d]) && Omitted(columns, value, m) then ""
           else rows0[j'][m]
  }

  /** One row of the inner loop keeps the loop's state. */
  lemma BlankStep(columns: seq<string>, value: string, rows0: seq<seq<string>>,
                  rows: seq<seq<string>>, d: nat, c: nat, j: nat)
    requires d < |columns| && columns[d] == DescColumn
    requires c < |columns| && Omitted(columns, value, c) && j < |rows|
    requires Blanked(columns, value, rows0, rows, d, c, j)
    ensures rows[j][d] == rows0[j][d]
    ensures var next := if IsMarker(rows[j][d]) then rows[j := rows[j][c := ""]] else rows;
      Blanked(columns, value, rows0, next, d, c, j + 1)
  {
    assert rows[j][d] == rows0[j][d];
  }

  /** A finished column, or one that is not omitted, moves the loop to the next column. */
  lemma BlankNext(columns: seq<string>, value: string, rows0: seq<seq<string>>,
                  rows: seq<seq<string>>, d: nat, c: nat)
    requires c < |columns|
    requires Blanked(columns, value, rows0, rows, d, c, if Omitted(columns, value, c) then |rows| else 0)
    ensures Blanked(columns, value, rows0, rows, d, c + 1, 0)
  {
    var j := if Omitted(columns, value, c) then |rows| else 0;
    forall j', m | 0 <= j' < |rows| && 0 <= m < |columns|
      ensures rows[j'][m] ==
        if m < c + 1 && IsMarker(rows0[j'][d]) && Omitted(columns, value, m) then "" else rows0[j'][m]
    {
      assert rows[j'][m] ==
        if (m < c || (m == c && j' < j)) && IsMarker(rows0[j'][d]) && Omitted(columns, value, m) then ""
        else rows0[j'][m];
    }
  }

  /** The `for col in colunas_omitidas` loop: column by column, the marker rows' cells in
      that column become blank. */
  method BlankMarkers(columns: seq<string>, value: string, rows0: seq<seq<string>>) returns (rows: seq<seq<string>>)
    requires DescColumn in columns && value != DescColumn
    requires forall i :: 0 <= i < |rows0| ==> |rows0[i]| == |columns|
    ensures rows == BlankAll(columns, value, rows0)
  {
    rows := rows0;
    var d := Position(columns, DescColumn);
    var c := 0;
    while c < |columns|
      invariant 0 <= c <= |columns|
      invariant Blanked(columns, value, rows0, rows, d, c, 0)
    {
      if columns[c] != DescColumn && columns[c] != value {
        var j := 0;
        while j < |rows|
          invariant 0 <= j <= |rows|
          invariant Blanked(columns, value, rows0, rows, d, c, j)
        {
          BlankStep(columns, value, rows0, rows, d, c, j);
          if rows[j][d] == TotalLabel || rows[j][d] == DoubleLabel {
            rows := rows[j := rows[j][c := ""]];
          }
          j := j + 1;
        }
      }
      BlankNext(columns, value, rows0, rows, d, c);
      c := c + 1;
    }
    forall j | 0 <= j < |rows|
      ensures rows[j] == BlankRow(columns, value, rows0[j])
    {
      assert forall m :: 0 <= m < |columns| ==> rows[j][m] == BlankRow(columns, value, rows0[j])[m];
    }
  }

  /** The part of `inserir_totais_na_coluna` after the sum: the early return on zero, the
      appended rows, the blanking loop. */
  method FinishTotals(t: Table, value: string, sum: real) returns (r: Table)
    requires WellFormed(t) && DescColumn in t.columns && value != DescColumn
    ensures r == TotalsFor(t, value, sum)
  {
    if sum == 0.0 {
      return t;
    }
    var total := Amounts.EnUsFormat(sum);
    var double := Amounts.EnUsFormat(2.0 * sum);
    var rows := BlankMarkers(t.columns, value, t.rows + MarkerRows(t.columns, value, total, double));
    r := Table(t.columns, rows);
  }

  /** `inserir_totais_na_coluna`: nothing to do without the value column; otherwise the sum
      of the column decides. */
  method InsertTotals(t: Table, value: string) returns (r: Table)
    requires WellFormed(t) && DescColumn in t.columns && value != DescColumn
    ensures r == Totals(t, value)
  {
    if value !in t.columns {
      return t;
    }
    var sum := SumColumn(t.rows, Position(t.columns, value));
    r := FinishTotals(t, value, sum);
  }

  /** Exactly two rows are appended, total then double: under the value column its amount,
      under DESCRIÇÃO its label, blank elsewhere. Earlier rows are kept, except that those a
      marker label describes lose the cells of every other column. */
  lemma FinishShape(columns: seq<string>, value: string, rows: seq<seq<string>>, total: string, double: string)
    requires DescColumn in columns && value != DescColumn
    requires forall i :: 0 <= i < |rows| ==> |rows[i]| == |columns|
    ensures var r := Finish(columns, value, rows, total, double);
      var n := |rows|;
      && r.columns == columns
      && |r.rows| == n + 2
      && (forall m :: 0 <= m < |columns| ==>
            && r.rows[n][m] == (if columns[m] == value then total else if columns[m] == DescColumn then TotalLabel else "")
            && r.rows[n + 1][m] == (if columns[m] == value then double else if columns[m] == DescColumn then DoubleLabel else ""))
      && (forall i :: 0 <= i < n && !IsMarker(rows[i][Position(columns, DescColumn)]) ==> r.rows[i] == rows[i])
      && (forall i, m :: 0 <= i < n && IsMarker(rows[i][Position(columns, DescColumn)]) && 0 <= m < |columns| ==>
            r.rows[i][m] == if Omitted(columns, value, m) then "" else rows[i][m])
  {
    var d := Position(columns, DescColumn);
    var r := Finish(columns, value, rows, total, double);
    var markers := MarkerRows(columns, value, total, double);
    var all := rows + markers;
    assert columns[d] == DescColumn;
    assert markers[0][d] == TotalLabel && markers[1][d] == DoubleLabel;
    forall m | 0 <= m < |columns|
      ensures r.rows[|rows|][m] == (if columns[m] == value then total else if columns[m] == DescColumn then TotalLabel else "")
      ensures r.rows[|rows| + 1][m] == (if columns[m] == value then double else if columns[m] == DescColumn then DoubleLabel else "")
    {
      assert all[|rows|] == markers[0] && all[|rows| + 1] == markers[1];
      assert r.rows[|rows|] == BlankRow(columns, value, markers[0]);
      assert r.rows[|rows| + 1] == BlankRow(columns, value, markers[1]);
      assert IsMarker(markers[0][d]) && IsMarker(markers[1][d]);
    }
    forall i | 0 <= i < |rows|
      ensures r.rows[i] == BlankRow(columns, value, rows[i])
    {
      assert all[i] == rows[i];
    }
  }

  /** For a sum that is a whole number of cents the two amounts are the en-US renderings of
      that many cents and of twice as many: "1,234.56" and "2,469.12" for 123456; a zero
      sum leaves the table as it is. */
  lemma TotalsForCents(t: Table, value: string, sum: real, cents: int)
    requires WellFormed(t) && DescColumn in t.columns
    requires sum == cents as real / 100.0
    ensures TotalsFor(t, value, sum) ==
      if cents == 0 then t
      else Finish(t.columns, value, t.rows,
        Amounts.FormatEnUs(cents < 0, if cents < 0 then -cents else cents),
        Amounts.FormatEnUs(cents < 0, if cents < 0 then -2 * cents else 2 * cents))
  {
    if cents != 0 {
      Amounts.EnUsFormatHundredths(sum, cents);
      Amounts.EnUsFormatDouble(sum, cents);
    }
  }


  lemma FinishWellFormed(columns: seq<string>, value: string, rows: seq<seq<string>>, total: string, double: string)
    requires DescColumn in columns && value != DescColumn
    requires forall i :: 0 <= i < |rows| ==> |rows[i]| == |columns|
    ensures Finish(columns, value, rows, total, double).columns == columns
    ensures WellFormed(Finish(columns, value, rows, total, double))
    ensures |Finish(columns, value, rows, total, double).rows| == |rows| + 2
  {
    var all := rows + MarkerRows(columns, value, total, double);
    var blanked := BlankAll(columns, value, all);
    forall i | 0 <= i < |blanked|
      ensures |blanked[i]| == |columns|
    {
      assert blanked[i] == BlankRow(columns, value, all[i]);
    }
  }

  /** The columns stay as they are and every row keeps one cell per column; the table grows
      by the two marker rows or not at all. */
  lemma TotalsShape(t: Table, value: string)
    requires WellFormed(t) && DescColumn in t.columns && value != DescColumn
    ensures Totals(t, value).columns == t.columns && WellFormed(Totals(t, value))
    ensures |Totals(t, value).rows| == |t.rows| || |Totals(t, value).rows| == |t.rows| + 2
  {
    if value in t.columns {
      var sum := ColumnSum(t.rows, Position(t.columns, value));
      if sum != 0.0 {
        FinishWellFormed(t.columns, value, t.rows, Amounts.EnUsFormat(sum), Amounts.EnUsFormat(2.0 * sum));
      }
    }
  }
}
