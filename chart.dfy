/** The values `updateChart` hands to the chart (script.js:169-184): one label and one value
    per reading, in the order of the data, and a y-axis range five centimetres wider than the
    data on each side. With no data it returns before touching the chart. */
module Chart {
  import opened Options
  import opened Dates
  import opened Readings
  import opened Sorting
  import opened Pages
  import opened Fetch

  /** `chart.data.labels`, `chart.data.datasets[0].data`, `chart.options.scales.y.min` and
      `.max`; a label is the reading's time value in minutes. */
  datatype ChartData = ChartData(labels: seq<int>, values: seq<real>, yMin: real, yMax: real)

  /** `Math.min(...values)` of a non-empty list. */
  function MinOf(xs: seq<real>): (m: real)
    requires |xs| > 0
    ensures m in xs
    ensures forall k | 0 <= k < |xs| :: m <= xs[k]
  {
    if |xs| == 1 then xs[0]
    else
      var rest := MinOf(xs[1..]);
      if xs[0] <= rest then xs[0] else rest
  }

  /** `Math.max(...values)` of a non-empty list. */
  function MaxOf(xs: seq<real>): (m: real)
    requires |xs| > 0
    ensures m in xs
    ensures forall k | 0 <= k < |xs| :: xs[k] <= m
  {
    if |xs| == 1 then xs[0]
    else
      var rest := MaxOf(xs[1..]);
      if xs[0] >= rest then xs[0] else rest
  }

  /** `data.map(entry => entry.waterHeight)`. */
  function Heights(data: seq<Reading>): (values: seq<real>)
    ensures |values| == |data|
    ensures forall k | 0 <= k < |data| :: values[k] == data[k].waterHeight
  {
    seq(|data|, k requires 0 <= k < |data| => data[k].waterHeight)
  }

  /** `data.map(entry => entry.datetime)`, as time values. */
  function Labels(data: seq<Reading>): (labels: seq<int>)
    ensures |labels| == |data|
    ensures forall k | 0 <= k < |data| :: labels[k] == Minutes(data[k].datetime)
  {
    seq(|data|, k requires 0 <= k < |data| => Minutes(data[k].datetime))
  }

  /** What `updateChart` writes into the chart, or None when it returns early on empty data. */
  function UpdateChart(data: seq<Reading>): (r: Option<ChartData>)
    ensures r.None? <==> data == []
    ensures r.Some? ==> |r.value.labels| == |r.value.values| == |data|
    ensures r.Some? ==> forall k | 0 <= k < |data| ::
      r.value.values[k] == data[k].waterHeight && r.value.labels[k] == Minutes(data[k].datetime)
    ensures r.Some? ==> forall k | 0 <= k < |data| ::
      r.value.yMin < data[k].waterHeight < r.value.yMax
    ensures r.Some? ==> r.value.yMin + 5.0 in r.value.values && r.value.yMax - 5.0 in r.value.values
  {
    if data == [] then None
    else
      var values := Heights(data);
      Some(ChartData(Labels(data), values, MinOf(values) - 5.0, MaxOf(values) + 5.0))
  }

  /** The bounds leave exactly five centimetres below the lowest reading and above the highest:
      a reading lies at `yMin + 5` and none below it, one at `yMax - 5` and none above it. */
  lemma AxisBoundsTight(data: seq<Reading>)
    requires data != []
    ensures var c := UpdateChart(data).value;
      (exists k | 0 <= k < |data| :: data[k].waterHeight == c.yMin + 5.0) &&
      (exists k | 0 <= k < |data| :: data[k].waterHeight == c.yMax - 5.0) &&
      (forall k | 0 <= k < |data| :: c.yMin + 5.0 <= data[k].waterHeight <= c.yMax - 5.0)
  {
    var c := UpdateChart(data).value;
    var lo :| 0 <= lo < |c.values| && c.values[lo] == c.yMin + 5.0;
    var hi :| 0 <= hi < |c.values| && c.values[hi] == c.yMax - 5.0;
    assert data[lo].waterHeight == c.yMin + 5.0;
    assert data[hi].waterHeight == c.yMax - 5.0;
  }

  /** The range is at least ten centimetres wide, and exactly ten when all readings are equal. */
  lemma AxisRangeWidth(data: seq<Reading>)
    requires data != []
    ensures var c := UpdateChart(data).value; c.yMax - c.yMin >= 10.0
    ensures (forall k | 0 <= k < |data| :: data[k].waterHeight == data[0].waterHeight) ==>
      var c := UpdateChart(data).value; c.yMin == data[0].waterHeight - 5.0 && c.yMax == data[0].waterHeight + 5.0
  {
    AxisBoundsTight(data);
  }

  /** The bounds of a list of readings contain those of any list whose readings all occur in it. */
  lemma AxisBoundsOfSubset(data: seq<Reading>, other: seq<Reading>)
    requires data != [] && other != []
    requires forall x | x in data :: x in other
    ensures UpdateChart(other).value.yMin <= UpdateChart(data).value.yMin
    ensures UpdateChart(data).value.yMax <= UpdateChart(other).value.yMax
  {
    var c, d := UpdateChart(data).value, UpdateChart(other).value;
    var lo :| 0 <= lo < |c.values| && c.values[lo] == c.yMin + 5.0;
    var hi :| 0 <= hi < |c.values| && c.values[hi] == c.yMax - 5.0;
    assert data[lo] in data && data[hi] in data;
    var j :| 0 <= j < |other| && other[j] == data[lo];
    var k :| 0 <= k < |other| && other[k] == data[hi];
    assert d.yMin < other[j].waterHeight == c.yMin + 5.0;
    assert other[k].waterHeight < d.yMax;
  }

  /** The bounds depend only on which readings occur, not on their order: sorting the data
      before charting it leaves the axis unchanged. */
  lemma AxisBoundsOrderFree(data: seq<Reading>, other: seq<Reading>)
    requires data != [] && multiset(data) == multiset(other)
    ensures UpdateChart(other).Some?
    ensures UpdateChart(data).value.yMin == UpdateChart(other).value.yMin
    ensures UpdateChart(data).value.yMax == UpdateChart(other).value.yMax
  {
    assert data[0] in multiset(other);
    assert forall x | x in data :: x in other by {
      forall x | x in data ensures x in other {
        assert x in multiset(data);
      }
    }
    assert forall x | x in other :: x in data by {
      forall x | x in other ensures x in data {
        assert x in multiset(other);
      }
    }
    AxisBoundsOfSubset(data, other);
    AxisBoundsOfSubset(other, data);
  }

  /** What one polling cycle charts: nothing exactly when no row was accepted, and otherwise
      the sorted readings, with the same axis as the readings in row order. */
  lemma ChartOfFetch(page: Page)
    ensures UpdateChart(FetchData(page)).None? <==> Accepted(page) == []
    ensures Accepted(page) != [] ==>
      UpdateChart(FetchData(page)).value.yMin == UpdateChart(Accepted(page)).value.yMin &&
      UpdateChart(FetchData(page)).value.yMax == UpdateChart(Accepted(page)).value.yMax
  {
    FetchDataOrder(page);
    if Accepted(page) != [] {
      AxisBoundsOrderFree(Accepted(page), FetchData(page));
    }
  }
}
