/**
 * The row handling in `main` (app2.py:502, 565, 595, 613-615, 655-656) between the bound
 * rows and the final deductions report: header rows dropped, rows without an amount
 * dropped, the glossary filter, the user's selection of descriptions, a stable sort by
 * (Data as text, page), the four report columns, the totals rows, and the Brazilian
 * rendering of every non-blank DESCONTOS cell.
 */
module Pipeline {
  import opened Text
  import Scanner
  import Glossary
  import Amounts
  import Totals

  type Row = Scanner.Row

  const AmountColumn: string := "DESCONTOS"
  /** The columns of the final report, in order. */
  const ReportColumns: seq<string> := ["Código", Totals.DescColumn, AmountColumn, "Data"]

  // ---------------------------------------------------------------------------
  // Row filters
  // ---------------------------------------------------------------------------

  /** Boolean indexing of a DataFrame: the rows for which `keep` holds, in order. */
  function Filter(s: seq<Row>, keep: Row -> bool): (r: seq<Row>)
    ensures |r| <= |s|
    ensures forall x :: x in r <==> x in s && keep(x)
  {
    if s == [] then []
    else Filter(s[..|s| - 1], keep) + (if keep(s[|s| - 1]) then [s[|s| - 1]] else [])
  }

  lemma {:induction false} FilterSubsequence(s: seq<Row>, keep: Row -> bool)
    ensures Glossary.IsSubsequence(Filter(s, keep), s)
  {
    if s != [] {
      var init := s[..|s| - 1];
      FilterSubsequence(init, keep);
      var r := Filter(s, keep);
      if keep(s[|s| - 1]) {
        assert r[..|r| - 1] == Filter(init, keep);
      } else {
        assert r == Filter(init, keep);
      }
    }
  }

  /** The bound rows with their Intervalos value dropped. */
  function Rows(tagged: seq<Scanner.Tagged>): (rows: seq<Row>)
    ensures |rows| == |tagged| && forall i :: 0 <= i < |tagged| ==> rows[i] == tagged[i].row
  {
    seq(|tagged|, i requires 0 <= i < |tagged| => tagged[i].row)
  }

  predicate NotHeader(r: Row) { r.code != Scanner.HeaderCode }

  predicate HasAmount(r: Row) { Strip(r.amount) != [] }

  /** `df["Código"] != "Rubrica"`, then the amount filter `df["DESCONTOS"].str.strip() != ""`. */
  function Deductions(tagged: seq<Scanner.Tagged>): seq<Row>
  {
    Filter(Filter(Rows(tagged), NotHeader), HasAmount)
  }

  /** `df_sel["DESCRIÇÃO"].isin(selected_descr)`. */
  function Select(rows: seq<Row>, selected: seq<string>): seq<Row>
  {
    Filter(rows, (r: Row) => r.desc in selected)
  }

  // ---------------------------------------------------------------------------
  // Ordering: sort_values(by=["Data", "PÁGINA"])
  // ---------------------------------------------------------------------------

  /** Python's `<` on `str`: code point by code point, a proper prefix first. */
  predicate TextLess(a: string, b: string)
    decreases |a|
  {
    if a == [] then b != []
    else b != [] && (a[0] < b[0] || (a[0] == b[0] && TextLess(a[1..], b[1..])))
  }

  lemma {:induction false} TextLessIrreflexive(a: string)
    ensures !TextLess(a, a)
  {
    if a != [] {
      TextLessIrreflexive(a[1..]);
    }
  }

  lemma {:induction false} TextLessTransitive(a: string, b: string, c: string)
    requires TextLess(a, b) && TextLess(b, c)
    ensures TextLess(a, c)
  {
    if a != [] && a[0] == b[0] && b[0] == c[0] {
      TextLessTransitive(a[1..], b[1..], c[1..]);
    }
  }

  lemma {:induction false} TextLessTotal(a: string, b: string)
    ensures a == b || TextLess(a, b) || TextLess(b, a)
  {
    if a != [] && b != [] && a[0] == b[0] {
      TextLessTotal(a[1..], b[1..]);
      if a[1..] == b[1..] {
        assert a == [a[0]] + a[1..] && b == [b[0]] + b[1..];
      }
    }
  }

  /** `x` sorts strictly before `y`: an earlier Data text, or the same Data and an earlier page. */
  predicate Before(x: Row, y: Row)
  {
    TextLess(x.date, y.date) || (x.date == y.date && x.page < y.page)
  }

  predicate SameKey(x: Row, y: Row) { x.date == y.date && x.page == y.page }

  lemma BeforeIrreflexive(x: Row, y: Row)
    requires SameKey(x, y)
    ensures !Before(x, y)
  {
    TextLessIrreflexive(x.date);
  }

  lemma BeforeAsymmetric(x: Row, y: Row)
    requires Before(x, y)
    ensures !Before(y, x)
  {
    TextLessIrreflexive(x.date);
    if TextLess(x.date, y.date) && TextLess(y.date, x.date) {
      TextLessTransitive(x.date, y.date, x.date);
    }
  }

  /** Not sorting before is transitive: the order is a total preorder. */
  lemma NotBeforeTransitive(x: Row, y: Row, z: Row)
    requires !Before(y, x) && !Before(z, y)
    ensures !Before(z, x)
  {
    TextLessTotal(x.date, y.date);
    TextLessTotal(y.date, z.date);
    TextLessIrreflexive(x.date);
    if TextLess(x.date, y.date) && TextLess(y.date, z.date) {
      TextLessTransitive(x.date, y.date, z.date);
    }
    if Before(z, x) && TextLess(z.date, x.date) {
      if TextLess(x.date, y.date) {
        TextLessTransitive(z.date, x.date, y.date);
      }
      if TextLess(y.date, z.date) {
        TextLessTransitive(y.date, z.date, x.date);
      }
    }
  }

  ghost predicate Sorted(s: seq<Row>)
  {
    forall i, j :: 0 <= i < j < |s| ==> !Before(s[j], s[i])
  }

  /** `x` placed after the rows that sort strictly before it and ahead of the rest. */
  function Insert(x: Row, t: seq<Row>): (r: seq<Row>)
    ensures multiset(r) == multiset{x} + multiset(t)
  {
    if t == [] || !Before(t[0], x) then [x] + t
    else
      assert t == [t[0]] + t[1..];
      [t[0]] + Insert(x, t[1..])
  }

  /** A stable sort on (Data, page), as `sort_values` does when it sorts by several columns. */
  function SortRows(s: seq<Row>): (r: seq<Row>)
    ensures multiset(r) == multiset(s)
  {
    if s == [] then []
    else
      assert s == [s[0]] + s[1..];
      Insert(s[0], SortRows(s[1..]))
  }

  lemma SortedCons(y: Row, rest: seq<Row>)
    requires Sorted(rest) && forall k :: 0 <= k < |rest| ==> !Before(rest[k], y)
    ensures Sorted([y] + rest)
  {
    var r := [y] + rest;
    forall i, j | 0 <= i < j < |r|
      ensures !Before(r[j], r[i])
    {
      assert r[j] == rest[j - 1];
      if i > 0 {
        assert r[i] == rest[i - 1];
      }
    }
  }

  lemma {:induction false} InsertSorted(x: Row, t: seq<Row>)
    requires Sorted(t)
    ensures Sorted(Insert(x, t))
  {
    if t == [] || !Before(t[0], x) {
      forall k | 0 <= k < |t|
        ensures !Before(t[k], x)
      {
        if k > 0 {
          NotBeforeTransitive(x, t[0], t[k]);
        }
      }
      SortedCons(x, t);
    } else {
      InsertSorted(x, t[1..]);
      var rest := Insert(x, t[1..]);
      forall k | 0 <= k < |rest|
        ensures !Before(rest[k], t[0])
      {
        assert rest[k] in multiset(rest);
        if rest[k] == x {
          BeforeAsymmetric(t[0], x);
        } else {
          assert rest[k] in t[1..];
        }
      }
      SortedCons(t[0], rest);
    }
  }

  /** The rows come out in (Data, page) order. */
  lemma {:induction false} SortRowsSorted(s: seq<Row>)
    ensures Sorted(SortRows(s))
  {
    if s != [] {
      SortRowsSorted(s[1..]);
      InsertSorted(s[0], SortRows(s[1..]));
    }
  }

  /** The rows of `s` sharing `x`'s (Data, page), in order. */
  function Ties(s: seq<Row>, x: Row): seq<Row>
  {
    if s == [] then [] else (if SameKey(s[0], x) then [s[0]] else []) + Ties(s[1..], x)
  }

  lemma {:induction false} InsertTies(y: Row, t: seq<Row>, x: Row)
    ensures Ties(Insert(y, t), x) == (if SameKey(y, x) then [y] else []) + Ties(t, x)
  {
    if t == [] || !Before(t[0], y) {
      assert ([y] + t)[1..] == t;
    } else {
      InsertTies(y, t[1..], x);
      assert ([t[0]] + Insert(y, t[1..]))[1..] == Insert(y, t[1..]);
      if SameKey(t[0], x) && SameKey(y, x) {
        BeforeIrreflexive(t[0], y);
      }
    }
  }

  /** Stability: rows with the same (Data, page) keep their relative order. */
  lemma {:induction false} SortRowsStable(s: seq<Row>, x: Row)
    ensures Ties(SortRows(s), x) == Ties(s, x)
  {
    if s != [] {
      SortRowsStable(s[1..], x);
      InsertTies(s[0], SortRows(s[1..]), x);
    }
  }

  /** The order is on the Data text, not on the date: "01/2024" (January 2024) sorts before
      "12/2023" (December 2023). */
  lemma DataOrderIsTextual(x: Row, y: Row)
    requires x.date == "01/2024" && y.date == "12/2023"
    ensures Before(x, y)
  {
    assert x.date[0] < y.date[0];
  }

  /** A page without a competency date ("N/A") sorts after every dated page, as 'N' follows
      the digits. */
  lemma UndatedLast(x: Row, y: Row)
    requires x.date == "N/A" && y.date != [] && IsDigit(y.date[0])
    ensures Before(y, x)
  {
  }

  // ---------------------------------------------------------------------------
  // The report
  // ---------------------------------------------------------------------------

  /** The rows of the final report, in order: bound rows minus headers and blank amounts,
      the glossary filter, the user's selection, then sorted. */
  function Ledger(tagged: seq<Scanner.Tagged>, glossary: seq<string>, threshold: int,
                  ratio: Glossary.Scorer, selected: seq<string>): seq<Row>
  {
    SortRows(Select(Glossary.GlossaryFilter(Deductions(tagged), glossary, threshold, ratio), selected))
  }

  /** A row reaches the report exactly when it is a bound record (not a header) with a
      non-blank amount whose description matches the glossary and was selected; the report
      is in (Data, page) order. */
  lemma LedgerMembers(tagged: seq<Scanner.Tagged>, glossary: seq<string>, threshold: int,
                      ratio: Glossary.Scorer, selected: seq<string>, x: Row)
    ensures Sorted(Ledger(tagged, glossary, threshold, ratio, selected))
    ensures x in Ledger(tagged, glossary, threshold, ratio, selected) <==>
      && (exists i :: 0 <= i < |tagged| && tagged[i].row == x)
      && x.code != Scanner.HeaderCode
      && Strip(x.amount) != []
      && glossary != [] && Glossary.Matches(x.desc, glossary, threshold, ratio)
      && x.desc in selected
  {
    var kept := Glossary.GlossaryFilter(Deductions(tagged), glossary, threshold, ratio);
    var chosen := Select(kept, selected);
    SortRowsSorted(chosen);
    assert x in SortRows(chosen) <==> x in multiset(chosen);
    Glossary.GlossaryFilterMembers(Deductions(tagged), glossary, threshold, ratio, x);
    var rows := Rows(tagged);
    assert x in rows <==> exists i :: 0 <= i < |tagged| && tagged[i].row == x;
  }

  /** `df_final[["Código", "DESCRIÇÃO", "DESCONTOS", "Data"]]`. */
  function Project(rows: seq<Row>): (t: Totals.Table)
    ensures t.columns == ReportColumns && |t.rows| == |rows| && Totals.WellFormed(t)
    ensures forall i :: 0 <= i < |rows| ==>
      t.rows[i][0] == rows[i].code && t.rows[i][1] == rows[i].desc &&
      t.rows[i][2] == rows[i].amount && t.rows[i][3] == rows[i].date
  {
    Totals.Table(ReportColumns,
      seq(|rows|, i requires 0 <= i < |rows| => [rows[i].code, rows[i].desc, rows[i].amount, rows[i].date]))
  }

  /** `inserir_totais_na_coluna(df_final, "DESCONTOS")`. */
  function ReportTable(rows: seq<Row>): Totals.Table
  {
    Totals.Totals(Project(rows), AmountColumn)
  }

  /** The amount `_to_float` reads from a row's DESCONTOS cell. */
  function AmountOf(r: Row): real
  {
    Amounts.ToFloat(r.amount)
  }

  /** The DESCONTOS sum of the projected report is the sum of the rows' amounts. */
  lemma {:induction false} ReportSum(rows: seq<Row>)
    ensures Totals.ColumnSum(Project(rows).rows, 2) == Totals.SumBy(rows, AmountOf)
    decreases |rows|
  {
    if rows != [] {
      var n := |rows| - 1;
      var t := Project(rows).rows;
      ReportSum(rows[..n]);
      assert t[..n] == Project(rows[..n]).rows;
      assert t[n][2] == rows[n].amount;
    }
  }

  /** The DESCONTOS total does not depend on the order of the rows. */
  lemma ReportSumPermutation(a: seq<Row>, b: seq<Row>)
    requires multiset(a) == multiset(b)
    ensures Totals.ColumnSum(Project(a).rows, 2) == Totals.ColumnSum(Project(b).rows, 2)
  {
    ReportSum(a);
    ReportSum(b);
    Totals.SumByPermutation(a, b, AmountOf);
  }

  /** Sorting the ledger (app2.py:614) before the totals are inserted (app2.py:619) leaves
      the DESCONTOS total as it is for the selected rows in their original order. */
  lemma LedgerTotalIgnoresSort(tagged: seq<Scanner.Tagged>, glossary: seq<string>, threshold: int,
                               ratio: Glossary.Scorer, selected: seq<string>)
    ensures Totals.ColumnSum(Project(Ledger(tagged, glossary, threshold, ratio, selected)).rows, 2)
      == Totals.ColumnSum(Project(Select(Glossary.GlossaryFilter(Deductions(tagged), glossary, threshold, ratio), selected)).rows, 2)
  {
    var chosen := Select(Glossary.GlossaryFilter(Deductions(tagged), glossary, threshold, ratio), selected);
    ReportSumPermutation(SortRows(chosen), chosen);
  }

  /** The text the report shows for a cell: a non-blank DESCONTOS cell through
      `formatar_valor_brl`, every other cell as it is. */
  function Cell(column: string, value: string): string
  {
    if column == AmountColumn && Strip(value) != [] then Amounts.FormatValorBrl(value) else value
  }

  /** The rows printed in bold: the two totals rows. */
  predicate IsMarker(desc: string) { desc == Totals.TotalLabel || desc == Totals.DoubleLabel }

  /** `cells` and `bold` are what the report prints for `t`: one line per row, each column's
      cell through `Cell`, the totals rows in bold. */
  ghost predicate Rendered(t: Totals.Table, cells: seq<seq<string>>, bold: seq<bool>)
  {
    && |cells| == |bold| == |t.rows|
    && forall i :: 0 <= i < |t.rows| ==>
         && |t.rows[i]| == |ReportColumns| && |cells[i]| == |ReportColumns|
         && bold[i] == IsMarker(t.rows[i][1])
         && forall k :: 0 <= k < |ReportColumns| ==> cells[i][k] == Cell(ReportColumns[k], t.rows[i][k])
  }

  /** The row loop that fills the report: each cell's text, and whether the row is bold. */
  method RenderReport(t: Totals.Table) returns (cells: seq<seq<string>>, bold: seq<bool>)
    requires Totals.WellFormed(t) && t.columns == ReportColumns
    ensures Rendered(t, cells, bold)
  {
    cells, bold := [], [];
    var i := 0;
    while i < |t.rows|
      invariant 0 <= i <= |t.rows|
      invariant Rendered(Totals.Table(t.columns, t.rows[..i]), cells, bold)
    {
      var row := t.rows[i];
      var line := [];
      var k := 0;
      while k < |ReportColumns|
        invariant 0 <= k <= |ReportColumns|
        invariant |line| == k
        invariant forall m :: 0 <= m < k ==> line[m] == Cell(ReportColumns[m], row[m])
      {
        var value := row[k];
        if ReportColumns[k] == AmountColumn && Strip(value) != [] {
          value := Amounts.FormatValorBrl(value);
        }
        line := line + [value];
        k := k + 1;
      }
      assert t.rows[..i + 1] == t.rows[..i] + [row];
      cells := cells + [line];
      bold := bold + [IsMarker(row[1])];
      i := i + 1;
    }
    assert t.rows[..i] == t.rows;
  }

  /** "Gerar Relatório Final de Descontos": the report's cells and bold rows for the bound
      rows, the glossary, the threshold, the scorer and the selection. */
  method FinalReport(tagged: seq<Scanner.Tagged>, glossary: seq<string>, threshold: int,
                     ratio: Glossary.Scorer, selected: seq<string>)
    returns (cells: seq<seq<string>>, bold: seq<bool>)
    ensures Rendered(ReportTable(Ledger(tagged, glossary, threshold, ratio, selected)), cells, bold)
  {
    var rows := Ledger(tagged, glossary, threshold, ratio, selected);
    var projected := Project(rows);
    var t := Totals.InsertTotals(projected, AmountColumn);
    Totals.TotalsShape(projected, AmountColumn);
    cells, bold := RenderReport(t);
  }

  // ---------------------------------------------------------------------------
  // What the report shows
  // ---------------------------------------------------------------------------

  lemma StripKeepsLastNonSpace(x: string)
    requires x != [] && !IsSpace(x[|x| - 1])
    ensures Strip(x) != []
  {
    var n := LeadingSpace(x);
    assert n < |x|;
    var t := x[n..];
    assert t[|t| - 1] == x[|x| - 1];
    assert TrailingSpace(t) == 0;
  }

  lemma {:induction false} FormattedEndsInDigit(negative: bool, m: nat, thousands: char, decimal: char)
    ensures var s := Amounts.FormatWith(negative, m, thousands, decimal);
      s != [] && IsDigit(s[|s| - 1])
  {
    var f := Fixed(m % 100, 2);
    var s := Amounts.FormatWith(negative, m, thousands, decimal);
    assert s[|s| - 1] == f[1];
  }

  /** An amount cell holding an en-US rendering (what the totals rows hold) shows the
      Brazilian rendering of the same amount. */
  lemma CellOfEnUs(negative: bool, m: nat)
    ensures Cell(AmountColumn, Amounts.FormatEnUs(negative, m)) == Amounts.FormatBr(negative, m)
  {
    FormattedEndsInDigit(negative, m, ',', '.');
    StripKeepsLastNonSpace(Amounts.FormatEnUs(negative, m));
    Amounts.FormatValorBrlOfEnUs(negative, m);
  }

  /** An amount cell already in the Brazilian rendering (as the payslip prints it) is shown
      as it is. */
  lemma CellOfBr(negative: bool, m: nat)
    ensures Cell(AmountColumn, Amounts.FormatBr(negative, m)) == Amounts.FormatBr(negative, m)
  {
    FormattedEndsInDigit(negative, m, '.', ',');
    StripKeepsLastNonSpace(Amounts.FormatBr(negative, m));
    Amounts.FormatValorBrlOfHundredths(negative, m, '.', ',');
  }

  lemma AmountPosition()
    ensures AmountColumn in ReportColumns && Totals.Position(ReportColumns, AmountColumn) == 2
  {
    assert ReportColumns[2] == AmountColumn;
    assert ReportColumns[1..][1..] == [AmountColumn, "Data"];
  }

  /** The two rows the totals add to a projected report, for any rendered amounts. */
  lemma MarkerRowsOf(rows: seq<Row>, total: string, double: string)
    ensures var t := Project(rows);
      var f := Totals.Finish(ReportColumns, AmountColumn, t.rows, total, double).rows;
      var n := |rows|;
      && |f| == n + 2
      && f[n] == ["", Totals.TotalLabel, total, ""]
      && f[n + 1] == ["", Totals.DoubleLabel, double, ""]
  {
    var t := Project(rows);
    assert ReportColumns[0] != AmountColumn && ReportColumns[0] != Totals.DescColumn;
    assert ReportColumns[3] != AmountColumn && ReportColumns[3] != Totals.DescColumn;
    Totals.FinishShape(ReportColumns, AmountColumn, t.rows, total, double);
  }

  /** With a zero sum the report is the projected rows alone. */
  lemma ReportWithoutTotals(rows: seq<Row>)
    requires Totals.ColumnSum(Project(rows).rows, 2) == 0.0
    ensures ReportTable(rows) == Project(rows)
  {
    TotalsOfReport(Project(rows));
  }

  lemma TotalsOfReport(t: Totals.Table)
    requires t.columns == ReportColumns && Totals.WellFormed(t)
    ensures Totals.Totals(t, AmountColumn) == Totals.TotalsFor(t, AmountColumn, Totals.ColumnSum(t.rows, 2))
  {
    AmountPosition();
  }

  lemma ReportTableCents(rows: seq<Row>, cents: int)
    requires Totals.ColumnSum(Project(rows).rows, 2) == cents as real / 100.0 && cents != 0
    ensures var neg := cents < 0;
      var m: nat := if neg then -cents else cents;
      ReportTable(rows) ==
        Totals.Finish(ReportColumns, AmountColumn, Project(rows).rows, Amounts.FormatEnUs(neg, m), Amounts.FormatEnUs(neg, 2 * m))
  {
    var t := Project(rows);
    TotalsOfReport(t);
    Totals.TotalsForCents(t, AmountColumn, Totals.ColumnSum(t.rows, 2), cents);
    var neg := cents < 0;
    var m: nat := if neg then -cents else cents;
    assert (if neg then -2 * cents else 2 * cents) == 2 * m;
  }

  lemma ReportTotalsRows(rows: seq<Row>, cents: int)
    requires Totals.ColumnSum(Project(rows).rows, 2) == cents as real / 100.0 && cents != 0
    ensures var r := ReportTable(rows).rows;
      var n := |rows|;
      var neg := cents < 0;
      var m: nat := if neg then -cents else cents;
      && |r| == n + 2
      && r[n] == ["", Totals.TotalLabel, Amounts.FormatEnUs(neg, m), ""]
      && r[n + 1] == ["", Totals.DoubleLabel, Amounts.FormatEnUs(neg, 2 * m), ""]
  {
    ReportTableCents(rows, cents);
    var neg := cents < 0;
    var m: nat := if neg then -cents else cents;
    MarkerRowsOf(rows, Amounts.FormatEnUs(neg, m), Amounts.FormatEnUs(neg, 2 * m));
  }

  /** Otherwise it ends with the two totals rows, captioned "Valor Total (R$)" and "Em dobro
      (R$)", printed in bold, their other cells blank. */
  lemma ReportTotalsCaptions(rows: seq<Row>, cents: int)
    requires Totals.ColumnSum(Project(rows).rows, 2) == cents as real / 100.0 && cents != 0
    ensures var r := ReportTable(rows).rows;
      var n := |rows|;
      && |r| == n + 2 && |r[n]| == |r[n + 1]| == |ReportColumns|
      && r[n][0] == "" && r[n][1] == Totals.TotalLabel && r[n][3] == ""
      && r[n + 1][0] == "" && r[n + 1][1] == Totals.DoubleLabel && r[n + 1][3] == ""
      && IsMarker(r[n][1]) && IsMarker(r[n + 1][1])
  {
    ReportTotalsRows(rows, cents);
  }

  /** The totals rows show the Brazilian rendering of the sum and of twice the sum. */
  lemma ReportTotalsAmounts(rows: seq<Row>, cents: int)
    requires Totals.ColumnSum(Project(rows).rows, 2) == cents as real / 100.0 && cents != 0
    ensures var r := ReportTable(rows).rows;
      var n := |rows|;
      var neg := cents < 0;
      var m: nat := if neg then -cents else cents;
      && |r| == n + 2 && |r[n]| == |r[n + 1]| == |ReportColumns|
      && Cell(AmountColumn, r[n][2]) == Amounts.FormatBr(neg, m)
      && Cell(AmountColumn, r[n + 1][2]) == Amounts.FormatBr(neg, 2 * m)
  {
    ReportTotalsRows(rows, cents);
    var neg := cents < 0;
    var m: nat := if neg then -cents else cents;
    CellOfEnUs(neg, m);
    CellOfEnUs(neg, 2 * m);
  }
}
