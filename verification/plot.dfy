/** Mode selection of the plot command: scatter when a Y column is given,
    a histogram of the non-null values for the four numeric dtypes it
    lists, bars of the fifteen most frequent values otherwise. */
module Plot {
  import opened Outcomes
  import Columns
  import ValueCounts

  /** The dtypes a column loaded from CSV can carry, as a closed variant. */
  datatype DType =
    | Int8 | Int16 | Int32 | Int64
    | UInt8 | UInt16 | UInt32 | UInt64
    | Float32 | Float64
    | Boolean | Str | Date | Datetime | Time | Null | Other

  /** The dtypes that peek/main.py, line 191, sends to the histogram.
      Other integer widths are not in the list and are charted as
      categories. */
  predicate IsHistogramType(d: DType) {
    d == Int64 || d == Float64 || d == Int32 || d == Float32
  }

  /** A loaded column: its name, its dtype and its cells, None for null. */
  datatype Column<V> = Column(name: string, dtype: DType, cells: seq<Option<V>>)

  /** What the plot command hands to the plotting library. */
  datatype Chart<V> =
    | Scatter(xs: seq<Option<V>>, ys: seq<Option<V>>, xLabel: string, yLabel: string)
    | Histogram(values: seq<V>, bins: int)
    | Bars(bars: seq<(Option<V>, nat)>)

  /** `if y_col:` is a truth test on the option's text: an empty name
      counts as no Y column. */
  predicate HasY<V>(y: Option<Column<V>>) {
    y.Some? && y.value.name != ""
  }

  /** peek/main.py, lines 182-199: pick the chart for column x and the optional column y. */
  function SelectChart<V(==)>(x: Column<V>, y: Option<Column<V>>, bins: int): (c: Chart<V>)
    ensures HasY(y) ==>
      && c.Scatter? && c.xs == x.cells && c.ys == y.value.cells
      && c.xLabel == x.name && c.yLabel == y.value.name
    ensures !HasY(y) && IsHistogramType(x.dtype) ==>
      && c.Histogram? && c.bins == bins
      && |c.values| == |x.cells| - Columns.Count(x.cells, None)
      && (forall i :: 0 <= i < |c.values| ==> Some(c.values[i]) in x.cells)
      && (forall i :: 0 <= i < |x.cells| && x.cells[i].Some? ==> x.cells[i].value in c.values)
    ensures !HasY(y) && !IsHistogramType(x.dtype) ==>
      && c.Bars?
      && |c.bars| == Columns.Min(ValueCounts.BarLimit, |ValueCounts.Distinct(x.cells)|)
      && ValueCounts.ByCountDesc(c.bars)
      && ValueCounts.UniqueLabels(c.bars)
      && (forall i :: 0 <= i < |c.bars| ==>
            c.bars[i].0 in x.cells && c.bars[i].1 == Columns.Count(x.cells, c.bars[i].0))
  {
    if HasY(y) then Scatter(x.cells, y.value.cells, x.name, y.value.name)
    else if IsHistogramType(x.dtype) then Histogram(Columns.DropNulls(x.cells), bins)
    else Bars(ValueCounts.TopCounts(x.cells))
  }

  /** A Y column decides the chart alone: whatever the dtypes, it is a scatter. */
  lemma ScatterIgnoresDtype<V>(x: Column<V>, d: DType, y: Option<Column<V>>, bins: int)
    requires HasY(y)
    ensures SelectChart(x, y, bins) == SelectChart(Column(x.name, d, x.cells), y, bins)
  {
  }

  /** Without a Y column the chart kind depends on the dtype alone: the
      histogram for the four listed numeric dtypes, bars for every other. */
  lemma KindFollowsDtype<V>(x: Column<V>, y: Option<Column<V>>, bins: int)
    requires !HasY(y)
    ensures SelectChart(x, y, bins).Histogram? <==> IsHistogramType(x.dtype)
    ensures SelectChart(x, y, bins).Bars? <==> !IsHistogramType(x.dtype)
  {
  }

  /** The histogram keeps the non-null values in column order: loading
      more rows after a prefix only extends its input. */
  lemma HistogramKeepsOrder<V>(name: string, d: DType, a: seq<Option<V>>, b: seq<Option<V>>, bins: int)
    requires IsHistogramType(d)
    ensures SelectChart(Column(name, d, a + b), None, bins).values
      == SelectChart(Column(name, d, a), None, bins).values + SelectChart(Column(name, d, b), None, bins).values
  {
    Columns.DropNullsAppend(a, b);
  }

  /** The bar chart shows the most frequent values: a value of the column
      without a bar occurs no more often than any value with one. */
  lemma BarsAreMostFrequent<V>(x: Column<V>, y: Option<Column<V>>, bins: int, v: Option<V>)
    requires !HasY(y) && !IsHistogramType(x.dtype)
    requires v in x.cells
    requires forall i :: 0 <= i < |SelectChart(x, y, bins).bars| ==> SelectChart(x, y, bins).bars[i].0 != v
    ensures forall i :: 0 <= i < |SelectChart(x, y, bins).bars| ==>
      SelectChart(x, y, bins).bars[i].1 >= Columns.Count(x.cells, v)
  {
    assert SelectChart(x, y, bins).bars == ValueCounts.TopCounts(x.cells);
    ValueCounts.TopCountsDominate(x.cells, v);
  }
}
