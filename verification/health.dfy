/** The heuristics of the describe command: a missing-data severity and a
    uniqueness note per column, the ordered list of insights, and the panel
    the list selects. The per-column counts are inputs. */
module Health {
  import opened Outcomes

  /** What the combined aggregation reports for one column of the schema. */
  datatype ColumnStats = ColumnStats(name: string, dtype: string, nUnique: nat, nMissing: nat)

  /** How the missing count is styled: red, yellow, or muted green. */
  datatype Severity = Critical | Warning | Clean

  /** How the unique count is annotated: constant, likely identifier, plain. */
  datatype UniqueNote = Constant | IdLike | Plain

  /** One line of the insights panel, in the order the loop appends them. */
  datatype Insight =
    | MissingData(column: string, severity: Severity)
    | ConstantColumn(column: string)

  /** One row of the health table. */
  datatype ColumnRow = ColumnRow(
    name: string, dtype: string, nUnique: nat, nMissing: nat,
    severity: Severity, note: UniqueNote)

  /** The panel printed under the table. */
  datatype Panel = Issues(insights: seq<Insight>) | AllClean

  datatype HealthReport = HealthReport(totalRows: nat, rows: seq<ColumnRow>, panel: Panel)

  /** Why describe ended in its error handler: the percentage division had
      nothing to divide by, or Rich refused the markup a column name made
      when the table was printed. */
  datatype DescribeError = ZeroRows | MarkupRejected

  /** The missing percentage, n_missing / total_rows * 100, as an exact rational. */
  ghost function MissingPercent(nMissing: nat, totalRows: nat): real
    requires totalRows > 0
  {
    (nMissing as real / totalRows as real) * 100.0
  }

  /** The missing percentage exceeds c exactly when the cross-multiplied
      integer comparison says so. */
  lemma PercentAbove(nMissing: nat, totalRows: nat, c: nat)
    requires totalRows > 0
    ensures MissingPercent(nMissing, totalRows) > c as real <==> nMissing * 100 > c * totalRows
  {
    var t := totalRows as real;
    var q := nMissing as real / t;
    assert q * t == nMissing as real;
    var p := q * 100.0;
    assert p * t == nMissing as real * 100.0;
    if p > c as real {
      assert p * t > c as real * t;
    } else {
      assert p * t <= c as real * t;
    }
  }

  /** peek/main.py, lines 117-124, with the percentages cross-multiplied:
      more than 40% missing is critical, more than 5% a warning, anything
      else clean. */
  function SeverityOf(nMissing: nat, totalRows: nat): Severity {
    if nMissing * 100 > 40 * totalRows then Critical
    else if nMissing * 100 > 5 * totalRows then Warning
    else Clean
  }

  /** The cross-multiplied comparisons classify by the missing percentage
      itself: critical above 40, warning above 5 up to 40, clean up to 5. */
  lemma SeverityByPercent(nMissing: nat, totalRows: nat)
    requires totalRows > 0
    ensures SeverityOf(nMissing, totalRows) == Critical <==> MissingPercent(nMissing, totalRows) > 40.0
    ensures SeverityOf(nMissing, totalRows) == Warning <==> 5.0 < MissingPercent(nMissing, totalRows) <= 40.0
    ensures SeverityOf(nMissing, totalRows) == Clean <==> MissingPercent(nMissing, totalRows) <= 5.0
  {
    PercentAbove(nMissing, totalRows, 40);
    PercentAbove(nMissing, totalRows, 5);
  }

  /** peek/main.py, lines 127-135: one unique value makes a constant
      column; otherwise as many unique values as rows makes a likely
      identifier. */
  function NoteOf(nUnique: nat, totalRows: nat): UniqueNote {
    if nUnique == 1 then Constant
    else if nUnique == totalRows then IdLike
    else Plain
  }

  /** The insights one column contributes (peek/main.py, lines 117-128):
      its missing-data line when the severity is not clean, then its
      constant line when it has one unique value. */
  function ColumnInsights(c: ColumnStats, totalRows: nat): seq<Insight> {
    var severity := SeverityOf(c.nMissing, totalRows);
    (if severity == Clean then [] else [MissingData(c.name, severity)])
    + (if c.nUnique == 1 then [ConstantColumn(c.name)] else [])
  }

  /** A column adds at most two lines, both naming it: the missing-data
      line exactly when its severity is not clean, the constant line
      exactly when it has one unique value, whatever its missing count,
      and the missing-data line first when there are both. */
  lemma ColumnInsightsShape(c: ColumnStats, totalRows: nat)
    ensures var r := ColumnInsights(c, totalRows);
      && |r| <= 2
      && (forall i :: 0 <= i < |r| ==> r[i].column == c.name)
      && (MissingData(c.name, SeverityOf(c.nMissing, totalRows)) in r <==>
            SeverityOf(c.nMissing, totalRows) != Clean)
      && (forall i :: 0 <= i < |r| && r[i].MissingData? ==>
            r[i].severity == SeverityOf(c.nMissing, totalRows) && r[i].severity != Clean)
      && (ConstantColumn(c.name) in r <==> c.nUnique == 1)
      && (|r| == 2 ==> r[0].MissingData? && r[1].ConstantColumn?)
  {
  }

  /** The insights of all columns, concatenated in schema order. */
  function Insights(cols: seq<ColumnStats>, totalRows: nat): (r: seq<Insight>)
    ensures |r| <= 2 * |cols|
  {
    if |cols| == 0 then []
    else Insights(cols[..|cols| - 1], totalRows) + ColumnInsights(cols[|cols| - 1], totalRows)
  }

  /** The table row for one column: the counts as reported, with severity and note. */
  function RowOf(c: ColumnStats, totalRows: nat): ColumnRow {
    ColumnRow(c.name, c.dtype, c.nUnique, c.nMissing, SeverityOf(c.nMissing, totalRows), NoteOf(c.nUnique, totalRows))
  }

  /** A non-empty insight list selects the warnings panel, an empty one the
      clean-data panel. */
  function PanelFor(insights: seq<Insight>): Panel {
    if |insights| == 0 then AllClean else Issues(insights)
  }

  /** Every column name is accepted by Rich's markup parser where the
      table cell and the insight line embed it. The parser is not part of
      this model: `markupOk` is its verdict on one name. */
  predicate NamesRender(cols: seq<ColumnStats>, markupOk: string -> bool) {
    forall i :: 0 <= i < |cols| ==> markupOk(cols[i].name)
  }

  /** The describe command from the aggregated counts on: with rows, or with
      no columns at all, a table row per column in schema order and the
      panel its insights select; with zero rows and some column, the first
      percentage divides by zero and the command fails before printing.
      The table renders every name as markup, so a name the parser refuses
      ends the command in the same handler. */
  function Describe(totalRows: nat, cols: seq<ColumnStats>, markupOk: string -> bool): (r: Result<HealthReport, DescribeError>)
    ensures r.Failure? <==> (totalRows == 0 && |cols| > 0) || exists i :: 0 <= i < |cols| && !markupOk(cols[i].name)
    ensures r == Failure(ZeroRows) <==> totalRows == 0 && |cols| > 0
    ensures r == Failure(MarkupRejected) <==> totalRows > 0 && exists i :: 0 <= i < |cols| && !markupOk(cols[i].name)
    ensures r.Success? ==> r.value.totalRows == totalRows && |r.value.rows| == |cols|
    ensures r.Success? ==> forall i :: 0 <= i < |cols| ==> r.value.rows[i] == RowOf(cols[i], totalRows)
    ensures r.Success? ==> (r.value.panel == AllClean <==> Insights(cols, totalRows) == [])
    ensures r.Success? && r.value.panel.Issues? ==> r.value.panel.insights == Insights(cols, totalRows)
  {
    if totalRows == 0 && |cols| > 0 then Failure(ZeroRows)
    else if !NamesRender(cols, markupOk) then Failure(MarkupRejected)
    else
      var rows := seq(|cols|, i requires 0 <= i < |cols| => RowOf(cols[i], totalRows));
      Success(HealthReport(totalRows, rows, PanelFor(Insights(cols, totalRows))))
  }

  /** The exit status: 0 after a report, 1 from the error handler
      (peek/main.py, lines 148-150). */
  function ExitCode(r: Result<HealthReport, DescribeError>): nat {
    if r.Success? then 0 else 1
  }

  /** The loop of peek/main.py, lines 106-137, as written: per column,
      append the missing line, then the constant line, then add the table
      row; then print the table, whose cells Rich parses as markup. It
      computes the report or error Describe defines. */
  method RunHeuristics(totalRows: nat, cols: seq<ColumnStats>, markupOk: string -> bool)
    returns (r: Result<HealthReport, DescribeError>)
    ensures r == Describe(totalRows, cols, markupOk)
  {
    var rows: seq<ColumnRow> := [];
    var warnings: seq<Insight> := [];
    var i := 0;
    while i < |cols|
      invariant 0 <= i <= |cols|
      invariant i > 0 ==> totalRows > 0
      invariant |rows| == i
      invariant forall k :: 0 <= k < i ==> rows[k] == RowOf(cols[k], totalRows)
      invariant warnings == Insights(cols[..i], totalRows)
    {
      var c := cols[i];
      if totalRows == 0 {
        return Failure(ZeroRows);
      }
      var severity: Severity;
      if c.nMissing * 100 > 40 * totalRows {
        warnings := warnings + [MissingData(c.name, Critical)];
        severity := Critical;
      } else if c.nMissing * 100 > 5 * totalRows {
        warnings := warnings + [MissingData(c.name, Warning)];
        severity := Warning;
      } else {
        severity := Clean;
      }
      var note: UniqueNote;
      if c.nUnique == 1 {
        warnings := warnings + [ConstantColumn(c.name)];
        note := Constant;
      } else if c.nUnique == totalRows {
        note := IdLike;
      } else {
        note := Plain;
      }
      rows := rows + [ColumnRow(c.name, c.dtype, c.nUnique, c.nMissing, severity, note)];
      assert cols[..i + 1][..i] == cols[..i];
      i := i + 1;
    }
    assert cols[..i] == cols;
    if !NamesRender(cols, markupOk) {
      return Failure(MarkupRejected);
    }
    var panel := if |warnings| > 0 then Issues(warnings) else AllClean;
    r := Success(HealthReport(totalRows, rows, panel));
    var d := Describe(totalRows, cols, markupOk);
    assert d.value.rows == rows;
    assert d.value.panel == panel by {
      if d.value.panel.Issues? {
        assert d.value.panel.insights == warnings;
      }
    }
  }

  /** The strict comparisons put the boundaries on the lower side: exactly
      40% missing is a warning, exactly 5% is clean. */
  lemma SeverityBoundaries(nMissing: nat, totalRows: nat)
    requires totalRows > 0
    ensures MissingPercent(nMissing, totalRows) == 40.0 ==> SeverityOf(nMissing, totalRows) == Warning
    ensures MissingPercent(nMissing, totalRows) == 5.0 ==> SeverityOf(nMissing, totalRows) == Clean
  {
    SeverityByPercent(nMissing, totalRows);
  }

  /** A likely-identifier column is one with as many unique values as rows
      that is not constant, and it adds no line of its own: at most its
      missing-data line. */
  lemma IdLikeAddsNoLine(c: ColumnStats, totalRows: nat)
    requires totalRows > 0
    ensures NoteOf(c.nUnique, totalRows) == IdLike <==> c.nUnique == totalRows && c.nUnique != 1
    ensures NoteOf(c.nUnique, totalRows) == IdLike ==>
      ColumnInsights(c, totalRows) == (if SeverityOf(c.nMissing, totalRows) == Clean then []
        else [MissingData(c.name, SeverityOf(c.nMissing, totalRows))])
  {
  }

  /** Insights of consecutive runs of columns are the consecutive runs of
      their insights. */
  lemma {:induction false} InsightsAppend(a: seq<ColumnStats>, b: seq<ColumnStats>, totalRows: nat)
    ensures Insights(a + b, totalRows) == Insights(a, totalRows) + Insights(b, totalRows)
    decreases |b|
  {
    if |b| == 0 {
      assert a + b == a;
    } else {
      var init := b[..|b| - 1];
      assert (a + b)[..|a + b| - 1] == a + init;
      assert (a + b)[|a + b| - 1] == b[|b| - 1];
      InsightsAppend(a, init, totalRows);
    }
  }

  /** Schema order: the lines of column i sit after those of every earlier
      column and before those of every later one. */
  lemma InsightsInColumnOrder(cols: seq<ColumnStats>, totalRows: nat, i: nat)
    requires i < |cols|
    ensures Insights(cols, totalRows)
      == Insights(cols[..i], totalRows) + ColumnInsights(cols[i], totalRows) + Insights(cols[i + 1..], totalRows)
  {
    assert cols == cols[..i] + [cols[i]] + cols[i + 1..];
    InsightsAppend(cols[..i] + [cols[i]], cols[i + 1..], totalRows);
    InsightsAppend(cols[..i], [cols[i]], totalRows);
    assert Insights([cols[i]], totalRows) == ColumnInsights(cols[i], totalRows) by {
      assert [cols[i]][..0] == [];
    }
  }

  /** The clean-data panel appears exactly when no column has more than 5%
      missing and no column is constant. */
  lemma {:induction false} InsightsEmptyIff(cols: seq<ColumnStats>, totalRows: nat)
    ensures Insights(cols, totalRows) == [] <==>
      forall i :: 0 <= i < |cols| ==> SeverityOf(cols[i].nMissing, totalRows) == Clean && cols[i].nUnique != 1
  {
    if |cols| > 0 {
      var init := cols[..|cols| - 1];
      InsightsEmptyIff(init, totalRows);
      assert forall i :: 0 <= i < |init| ==> init[i] == cols[i];
    }
  }

  /** Every column that is flagged contributes its lines to the panel. */
  lemma FlaggedColumnsReported(cols: seq<ColumnStats>, totalRows: nat, i: nat)
    requires i < |cols|
    ensures SeverityOf(cols[i].nMissing, totalRows) != Clean ==>
      MissingData(cols[i].name, SeverityOf(cols[i].nMissing, totalRows)) in Insights(cols, totalRows)
    ensures cols[i].nUnique == 1 ==> ConstantColumn(cols[i].name) in Insights(cols, totalRows)
  {
    InsightsInColumnOrder(cols, totalRows, i);
    ColumnInsightsShape(cols[i], totalRows);
  }

  /** describe exits with status 1 exactly when a table with columns has no
      rows or some column name is refused as markup. */
  lemma DescribeExitCode(totalRows: nat, cols: seq<ColumnStats>, markupOk: string -> bool)
    ensures ExitCode(Describe(totalRows, cols, markupOk)) == 1 <==>
      (totalRows == 0 && |cols| > 0) || !NamesRender(cols, markupOk)
    ensures ExitCode(Describe(totalRows, cols, markupOk)) == 0 <==>
      (totalRows > 0 || |cols| == 0) && NamesRender(cols, markupOk)
  {
  }

  /** A constant column named `x[/y]` on five rows: its closing tag has no
      opening tag, so once the parser refuses the name, describe ends in its
      error handler with status 1 although there are rows. */
  lemma UnmatchedTagNameFails(markupOk: string -> bool)
    requires !markupOk("x[/y]")
    ensures Describe(5, [ColumnStats("x[/y]", "String", 1, 0)], markupOk) == Failure(MarkupRejected)
    ensures ExitCode(Describe(5, [ColumnStats("x[/y]", "String", 1, 0)], markupOk)) == 1
  {
    assert [ColumnStats("x[/y]", "String", 1, 0)][0].name == "x[/y]";
  }

  /** With rows present, describe succeeds exactly when every column name
      renders, and then it shows the clean-data panel exactly when no column
      has more than 5% missing and none is constant. */
  lemma CleanPanelIff(totalRows: nat, cols: seq<ColumnStats>, markupOk: string -> bool)
    requires totalRows > 0
    ensures Describe(totalRows, cols, markupOk).Success? <==> NamesRender(cols, markupOk)
    ensures Describe(totalRows, cols, markupOk).Success? ==>
      (Describe(totalRows, cols, markupOk).value.panel == AllClean <==>
       forall i :: 0 <= i < |cols| ==> SeverityOf(cols[i].nMissing, totalRows) == Clean && cols[i].nUnique != 1)
  {
    InsightsEmptyIff(cols, totalRows);
  }

  /** The test fixture has 20 rows: `rating` with two blanks (10%) is a
      warning, while `category` and `customer_name` with one blank each sit
      at exactly 5% and stay clean; `id` has 20 unique values and is
      annotated as an identifier. */
  lemma FixtureColumns()
    ensures SeverityOf(2, 20) == Warning
    ensures SeverityOf(1, 20) == Clean
    ensures NoteOf(20, 20) == IdLike
    ensures Insights([ColumnStats("category", "String", 5, 1)], 20) == []
    ensures Insights([ColumnStats("rating", "Int64", 6, 2)], 20) == [MissingData("rating", Warning)]
  {
    var cat := [ColumnStats("category", "String", 5, 1)];
    var rat := [ColumnStats("rating", "Int64", 6, 2)];
    assert cat[..0] == [] && rat[..0] == [];
  }
}
