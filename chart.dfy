/**
 * The chart's data preparation (`MonteCarloChart` in
 * src/components/monte-carlo-chart.tsx): each `[year, p10, p50, p90]` row
 * becomes a point whose year is shifted to a calendar year by adding 2023,
 * with the percentile values copied unchanged.
 */
module Chart {
  import opened Projection

  /** The calendar year of horizon 0 on the chart's x-axis. */
  const ChartBaseYear: int := 2023

  datatype ChartPoint = ChartPoint(year: int, percentile10: real, percentile50: real, percentile90: real)

  /** `rawData.map(...)`: one point per row, in the same order. */
  function ToChartData(rawData: seq<Row>): (chartData: seq<ChartPoint>)
    ensures |chartData| == |rawData|
    ensures forall i :: 0 <= i < |rawData| ==>
              && chartData[i].year == rawData[i].year + ChartBaseYear
              && chartData[i].percentile10 == rawData[i].p10
              && chartData[i].percentile50 == rawData[i].p50
              && chartData[i].percentile90 == rawData[i].p90
  {
    seq(|rawData|, i requires 0 <= i < |rawData| =>
      ChartPoint(rawData[i].year + ChartBaseYear, rawData[i].p10, rawData[i].p50, rawData[i].p90))
  }

  /** The chart's calendar year of a row is the table's plan year of that row. */
  lemma ChartYearIsPlanYear(rawData: seq<Row>, i: nat)
    requires i < |rawData|
    ensures ToChartData(rawData)[i].year == PlanYear(rawData[i].year)
  {
  }

  /**
   * The chart of a projection: 31 points for the calendar years 2023..2053 in
   * order, the first holding the initial value in every band, and every
   * point's bands ordered 10th <= 50th <= 90th.
   */
  lemma ProjectionChart(params: Parameters, draws: seq<seq<seq<real>>>)
    requires TableDraws(draws)
    ensures ChartOfProjection(params, ToChartData(ChartRows(params, SimulationTable(params, draws))))
  {
    TableShape(params, draws);
    ChartOfWellFormedTable(params, SimulationTable(params, draws));
  }

  /** What the chart of a projection shows, as described above. */
  predicate ChartOfProjection(params: Parameters, chart: seq<ChartPoint>)
  {
    && |chart| == NumYears + 1
    && (forall k :: 0 <= k < |chart| ==> chart[k].year == ChartBaseYear + k)
    && chart[0].percentile10 == chart[0].percentile50 == chart[0].percentile90
       == params.initialShares * params.initialPrice
    && (forall k :: 0 <= k < |chart| ==>
          chart[k].percentile10 <= chart[k].percentile50 <= chart[k].percentile90)
  }

  lemma ChartOfWellFormedTable(params: Parameters, table: seq<Row>)
    requires WellFormedTable(table)
    ensures ChartOfProjection(params, ToChartData(ChartRows(params, table)))
  {
    var rows := ChartRows(params, table);
    assert forall k :: 1 <= k < |rows| ==> rows[k] == table[k - 1];
  }
}
