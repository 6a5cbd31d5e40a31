/**
 * The projection table of src/App.tsx: for each horizon 1..30 the simulator
 * runs 1000 paths, the results are sorted and the 10th, 50th and 90th
 * percentiles form the row `[year, p10, p50, p90]`. Growth and volatility are
 * entered in percent and passed on divided by 100. A deterministic year-0 row
 * is placed in front for display, and each row is shown with its plan year,
 * its total share count and the median price per share.
 */
module Projection {
  import opened Optional
  import opened Simulation
  import opened Percentiles

  /** The first plan year; horizon `h` is displayed as year `h + CurrentPlanYear`. */
  const CurrentPlanYear: int := 2023
  /** Paths simulated per horizon. */
  const NumSimulations: nat := 1000
  /** Horizons of the table. */
  const NumYears: nat := 30

  /** One table row: a horizon and the three percentiles of its ending values. */
  datatype Row = Row(year: int, p10: real, p50: real, p90: real)

  /** The horizons 1..30, in ascending order. */
  function Years(): (ys: seq<int>)
    ensures |ys| == NumYears
    ensures forall k :: 0 <= k < |ys| ==> ys[k] == k + 1
  {
    seq(NumYears, k => k + 1)
  }

  /** A row summarising the sorted `results` of one horizon. */
  function YearRow(year: int, results: seq<real>): (row: Row)
    requires |results| >= 1
    ensures row.year == year
    ensures row.p10 <= row.p50 <= row.p90
  {
    var sorted := SortAscending(results);
    assert |sorted| == |multiset(sorted)| == |results|;
    PickMonotone(sorted, 0.1, 0.5);
    PickMonotone(sorted, 0.5, 0.9);
    Row(year, Pick(sorted, 0.1), Pick(sorted, 0.5), Pick(sorted, 0.9))
  }

  /** Each percentile of a row is one of the results it summarises. */
  lemma YearRowSamples(year: int, results: seq<real>)
    requires |results| >= 1
    ensures var row := YearRow(year, results);
            row.p10 in results && row.p50 in results && row.p90 in results
  {
    var sorted := SortAscending(results);
    assert forall v :: v in sorted ==> v in multiset(sorted);
  }

  /** A rate entered in percent, as the fraction the simulator uses. */
  function FromPercent(percent: real): (r: real)
    ensures r * 100.0 == percent
  {
    percent / 100.0
  }

  /** Simulation inputs shared by every horizon of one table. */
  datatype Parameters = Parameters(initialPrice: real, initialShares: real, annualShares: real,
                                   growthPercent: real, volatilityPercent: real)

  /**
   * Draws for a whole table: for horizon `h` (at index `h - 1`), one row of
   * `h` draws for each of the `NumSimulations` paths.
   */
  predicate TableDraws(draws: seq<seq<seq<real>>>)
  {
    && |draws| == NumYears
    && forall h :: 0 <= h < |draws| ==>
         |draws[h]| == NumSimulations && DrawsShaped(draws[h], h + 1)
  }

  /**
   * The row of horizon `year`, simulated from that horizon's draws `paths`
   * with growth and volatility divided by 100.
   */
  function RowFor(params: Parameters, year: int, paths: seq<seq<real>>): (row: Row)
    requires |paths| >= 1
    ensures row.year == year
    ensures row.p10 <= row.p50 <= row.p90
  {
    YearRow(year, Simulated(params.initialPrice, params.initialShares, params.annualShares,
                            FromPercent(params.growthPercent), FromPercent(params.volatilityPercent), paths))
  }

  /**
   * The `reduce` over `years`: appends `rowOf(year)` to `acc` for each year,
   * in order.
   */
  function AppendRows<T>(acc: seq<T>, years: seq<int>, rowOf: int --> T): (rows: seq<T>)
    requires forall k :: 0 <= k < |years| ==> rowOf.requires(years[k])
    decreases |years|
  {
    if |years| == 0 then acc
    else AppendRows(acc + [rowOf(years[0])], years[1..], rowOf)
  }

  /** The fold keeps `acc` and appends exactly the row of each year, in order. */
  lemma {:induction false} AppendRowsContents<T>(acc: seq<T>, years: seq<int>, rowOf: int --> T)
    requires forall k :: 0 <= k < |years| ==> rowOf.requires(years[k])
    ensures |AppendRows(acc, years, rowOf)| == |acc| + |years|
    ensures AppendRows(acc, years, rowOf)[..|acc|] == acc
    ensures forall k :: 0 <= k < |years| ==> AppendRows(acc, years, rowOf)[|acc| + k] == rowOf(years[k])
    decreases |years|
  {
    if |years| > 0 {
      var acc' := acc + [rowOf(years[0])];
      AppendRowsContents(acc', years[1..], rowOf);
      var rows := AppendRows(acc, years, rowOf);
      assert rows[..|acc|] == rows[..|acc'|][..|acc|];
      forall k | 0 <= k < |years|
        ensures rows[|acc| + k] == rowOf(years[k])
      {
        if k > 0 {
          assert rows[|acc'| + (k - 1)] == rowOf(years[1..][k - 1]);
        }
      }
    }
  }

  /** The callback of the `reduce`: the row of horizon `year`, from that horizon's draws. */
  function RowOf(params: Parameters, draws: seq<seq<seq<real>>>): int --> Row
  {
    year requires 1 <= year <= |draws| && |draws[year - 1]| >= 1 => RowFor(params, year, draws[year - 1])
  }

  /** The simulated table for horizons 1..30. */
  function SimulationTable(params: Parameters, draws: seq<seq<seq<real>>>): (rows: seq<Row>)
    requires TableDraws(draws)
  {
    AppendRows([], Years(), RowOf(params, draws))
  }

  /** Folding over the horizons 1..30 puts the row of horizon `k + 1` at index `k`. */
  lemma FoldOverYears<T>(rowOf: int --> T)
    requires forall year :: 1 <= year <= NumYears ==> rowOf.requires(year)
    ensures |AppendRows([], Years(), rowOf)| == NumYears
    ensures forall k :: 0 <= k < NumYears ==> AppendRows([], Years(), rowOf)[k] == rowOf(k + 1)
  {
    var years := Years();
    assert forall k :: 0 <= k < |years| ==> rowOf.requires(years[k]);
    AppendRowsContents([], years, rowOf);
    forall k | 0 <= k < NumYears
      ensures AppendRows([], years, rowOf)[k] == rowOf(k + 1)
    {
      assert AppendRows([], years, rowOf)[0 + k] == rowOf(years[k]);
    }
  }

  /**
   * The shape of a table: 30 rows for the horizons 1..30 in ascending order,
   * each with ordered percentiles.
   */
  predicate WellFormedTable(table: seq<Row>)
  {
    && |table| == NumYears
    && forall k :: 0 <= k < |table| ==>
         table[k].year == k + 1 && table[k].p10 <= table[k].p50 <= table[k].p90
  }

  /**
   * The simulated table has one row per horizon 1..30, in order: row `k`
   * summarises the simulation of horizon `k + 1` from that horizon's draws.
   */
  lemma TableRows(params: Parameters, draws: seq<seq<seq<real>>>)
    requires TableDraws(draws)
    ensures |SimulationTable(params, draws)| == NumYears
    ensures forall k :: 0 <= k < NumYears ==> SimulationTable(params, draws)[k] == RowFor(params, k + 1, draws[k])
  {
    FoldOverYears(RowOf(params, draws));
  }

  /** The simulated table is well formed. */
  lemma TableShape(params: Parameters, draws: seq<seq<seq<real>>>)
    requires TableDraws(draws)
    ensures WellFormedTable(SimulationTable(params, draws))
  {
    var rowOf := RowOf(params, draws);
    forall year | 1 <= year <= NumYears
      ensures rowOf.requires(year) && rowOf(year).year == year
      ensures rowOf(year).p10 <= rowOf(year).p50 <= rowOf(year).p90
    {
    }
    FoldWellFormed(rowOf);
  }

  /** A fold over the horizons whose every row is well formed yields a well-formed table. */
  lemma FoldWellFormed(rowOf: int --> Row)
    requires forall year :: 1 <= year <= NumYears ==> rowOf.requires(year)
    requires forall year :: 1 <= year <= NumYears ==>
               rowOf(year).year == year && rowOf(year).p10 <= rowOf(year).p50 <= rowOf(year).p90
    ensures WellFormedTable(AppendRows([], Years(), rowOf))
  {
    FoldOverYears(rowOf);
  }

  /**
   * With zero volatility the three percentiles of horizon `year` all equal
   * the deterministic value of `year` years of contributions and compounding.
   */
  lemma ZeroVolatilityRow(params: Parameters, year: nat, paths: seq<seq<real>>)
    requires params.volatilityPercent == 0.0 && |paths| >= 1 && DrawsShaped(paths, year)
    ensures var v := CompoundedValue(params.initialPrice, params.initialShares, params.annualShares,
                                     FromPercent(params.growthPercent), year);
            RowFor(params, year, paths) == Row(year, v, v, v)
  {
    ZeroVolatilityYearRow(params.initialPrice, params.initialShares, params.annualShares,
                          FromPercent(params.growthPercent), FromPercent(params.volatilityPercent), year, paths);
  }

  /** The same collapse for any rate, stated on the summary of the simulated results. */
  lemma ZeroVolatilityYearRow(initialPrice: real, initialShares: real, annualShares: real,
                              rate: real, vol: real, year: nat, paths: seq<seq<real>>)
    requires vol == 0.0 && |paths| >= 1 && DrawsShaped(paths, year)
    ensures var v := CompoundedValue(initialPrice, initialShares, annualShares, rate, year);
            YearRow(year, Simulated(initialPrice, initialShares, annualShares, rate, vol, paths)) == Row(year, v, v, v)
  {
    ZeroVolatilityCollapse(initialPrice, initialShares, annualShares, rate, vol, year, paths);
    YearRowOfEqualResults(year, Simulated(initialPrice, initialShares, annualShares, rate, vol, paths),
                          CompoundedValue(initialPrice, initialShares, annualShares, rate, year));
  }

  /** When every result is the same value, all three percentiles are that value. */
  lemma YearRowOfEqualResults(year: int, results: seq<real>, v: real)
    requires |results| >= 1
    requires forall i :: 0 <= i < |results| ==> results[i] == v
    ensures YearRow(year, results) == Row(year, v, v, v)
  {
    YearRowSamples(year, results);
  }

  /**
   * The year-0 row shown before the simulated rows: the initial holding in
   * every percentile slot, with no simulation.
   */
  function BaselineRow(initialPrice: real, initialShares: real): (row: Row)
    ensures row.year == 0
    ensures row.p10 == row.p50 == row.p90 == initialShares * initialPrice
  {
    Row(0, initialPrice * initialShares, initialShares * initialPrice, initialShares * initialPrice)
  }

  /** The baseline is what any path of horizon 0 would return. */
  lemma BaselineIsHorizonZero(params: Parameters, rate: real, vol: real)
    ensures var row := BaselineRow(params.initialPrice, params.initialShares);
            var v := PathValue(params.initialPrice, params.initialShares, params.annualShares, rate, vol, []);
            row.p10 == v && row.p50 == v && row.p90 == v
  {
    ZeroHorizon(params.initialPrice, params.initialShares, params.annualShares, rate, vol);
  }

  /**
   * The table's year-0 row displays the initial price as its median price
   * directly; whenever there are initial shares the general median-price
   * formula applied to the baseline gives that same price.
   */
  lemma BaselineMedianPrice(params: Parameters)
    requires params.initialShares != 0.0
    ensures var median := MedianPrice(params, 0, BaselineRow(params.initialPrice, params.initialShares).p50);
            median.Some? && median.value == params.initialPrice
  {
    var shares := TotalShares(params, 0);
    assert shares == params.initialShares;
    assert (shares * params.initialPrice) / shares == params.initialPrice;
  }

  /** The rows handed to the chart: the baseline followed by the simulated table. */
  function ChartRows(params: Parameters, table: seq<Row>): (rows: seq<Row>)
    ensures |rows| == |table| + 1
    ensures rows[0] == BaselineRow(params.initialPrice, params.initialShares)
    ensures rows[1..] == table
  {
    [BaselineRow(params.initialPrice, params.initialShares)] + table
  }

  /** The plan-year column: a horizon shown as a calendar year. */
  function PlanYear(year: int): (y: int)
    ensures y - year == CurrentPlanYear
  {
    year + CurrentPlanYear
  }

  /** The total-shares column: `initialShares + annualShares * year`. */
  function TotalShares(params: Parameters, year: int): (shares: real)
  {
    params.initialShares + params.annualShares * year as real
  }

  /** The total-shares column agrees with the shares the simulator accumulates. */
  lemma TotalSharesMatchesSimulation(params: Parameters, year: nat)
    ensures TotalShares(params, year) == SharesAfter(params.initialShares, params.annualShares, year)
  {
    SharesAfterClosedForm(params.initialShares, params.annualShares, year);
  }

  /**
   * The median-price column: the median ending value divided by the
   * total-shares column. Division by zero shares has no numeric result
   * (JavaScript shows Infinity or NaN), so it is `None`.
   */
  function MedianPrice(params: Parameters, year: int, p50: real): (price: Option<real>)
    ensures price.None? <==> TotalShares(params, year) == 0.0
    ensures price.Some? ==> price.value * TotalShares(params, year) == p50
  {
    var shares := TotalShares(params, year);
    if shares == 0.0 then None else Some(p50 / shares)
  }

  /**
   * With zero volatility the median-price column recovers the deterministic
   * price path `initialPrice * (1 + growth)^year`.
   */
  lemma ZeroVolatilityMedianPrice(params: Parameters, year: nat, paths: seq<seq<real>>)
    requires params.volatilityPercent == 0.0 && |paths| >= 1 && DrawsShaped(paths, year)
    requires TotalShares(params, year) != 0.0
    ensures var median := MedianPrice(params, year, RowFor(params, year, paths).p50);
            median.Some? && median.value == CompoundedPrice(params.initialPrice, FromPercent(params.growthPercent), year)
  {
    ZeroVolatilityRow(params, year, paths);
    MedianOfCompoundedValue(params, year, RowFor(params, year, paths).p50);
  }

  /** A median equal to the deterministic value yields the deterministic price per share. */
  lemma MedianOfCompoundedValue(params: Parameters, year: nat, p50: real)
    requires TotalShares(params, year) != 0.0
    requires p50 == CompoundedValue(params.initialPrice, params.initialShares, params.annualShares,
                                    FromPercent(params.growthPercent), year)
    ensures var median := MedianPrice(params, year, p50);
            median.Some? && median.value == CompoundedPrice(params.initialPrice, FromPercent(params.growthPercent), year)
  {
    TotalSharesMatchesSimulation(params, year);
    var shares := TotalShares(params, year);
    var price := CompoundedPrice(params.initialPrice, FromPercent(params.growthPercent), year);
    assert p50 == shares * price;
    assert p50 / shares == price;
  }
}
