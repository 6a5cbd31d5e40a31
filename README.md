# Share-price simulator: Monte Carlo projection engine in Dafny

This project models the projection engine of the share-price simulator. The
engine values a holding that starts with `initialShares` shares at
`initialPrice` and gains `annualShares` shares each year. Each simulated year
the price is multiplied by `1 + annualGrowthRate + annualVolatility * z`,
where `z` is a standard normal draw. For every horizon from 1 to 30 years, 1000 paths are
simulated and their ending values are sorted. The values at sorted indices
`floor(n * 0.1)`, `floor(n * 0.5)` and `floor(n * 0.9)` become that year's
10th, 50th and 90th percentiles. A deterministic year-0 row goes in front.
The table shows each simulated row with its plan year (horizon + 2023), its
total share count, and its median price (50th percentile divided by total
shares); the year-0 row shows the initial price as its median price. The
chart shifts each row to a calendar year and labels the axis with a
thousands/millions/... formatter.

Modules:

- `Optional` (optional.dfy): the `Option` result type.
- `Simulation` (simulation.dfy): `monteCarloSimulation` as an imperative
  method with nested loops. It is proved against the specification functions
  `PathValue` / `Simulated`, and there are lemmas about those functions
  (zero volatility, horizon 0, one more year, a worked example).
- `Percentiles` (percentiles.dfy): ascending sort (sorted and a permutation)
  and the `floor(n * p)` percentile pick with its order properties.
- `Projection` (projection.dfy): the `reduce` over the 30 horizons that
  builds the table, the year-0 baseline row, and the plan-year, total-shares
  and median-price columns.
- `NumberFormat` (number_format.dfy): `nFormatter`, which covers the scale
  table lookup and the trailing-zero regular expression.
- `Chart` (chart.dfy): the chart's `rawData` to `chartData` mapping.

Numbers are Dafny `real`s, so the arithmetic is exact. The normal draws are
an explicit input: one row per path, one draw per simulated year.

## Model

| member | source | states |
|---|---|---|
| Simulation.MonteCarloSimulation | src/App.tsx:280-310 | returns one ending value per simulation, and value `i` is the portfolio value of path `i` under its draws (`results == Simulated(...)`) |
| Simulation.SimulatePath | src/App.tsx:292-306 | the inner yearly loop ends with the accumulated shares times the compounded price of that path (`PathValue`) |
| Simulation.Simulated | src/App.tsx:289-309 | one result per path, each equal to that path's portfolio value |
| Simulation.SharesAfterClosedForm | src/App.tsx:293-297 | adding `annualShares` once per year gives `initialShares + annualShares * years` |
| Simulation.ZeroVolatilityPrice | src/App.tsx:299-301 | with zero volatility the price after `n` years is `initialPrice * (1 + rate)^n`, whatever the draws |
| Simulation.ZeroVolatilityPath | src/App.tsx:292-304 | with zero volatility a path's value is the deterministic compounded value |
| Simulation.ZeroVolatilityCollapse | src/App.tsx:291-307 | with zero volatility every simulated result equals the same compounded value |
| Simulation.ZeroHorizon | src/App.tsx:292-296 | a horizon of 0 years yields `initialShares * initialPrice` |
| Simulation.OneMoreYear | src/App.tsx:296-304 | one more year adds `annualShares` to the shares and applies one growth step to the price |
| Simulation.OneYearExample | src/App.tsx:292-304 | price 100, 0 initial shares, 50 shares per year, 10% growth, no volatility, 1 year: the value is 5500 |
| Simulation.SharesAfter | src/App.tsx:293-297 | the share count after `years` contributions, added one per year; `SharesAfterClosedForm` gives its closed form |
| Simulation.Step | src/App.tsx:299-301 | one year's price move, `price * (1 + rate + vol * z)`; `ZeroVolatilityPrice` and `OneMoreYear` characterise it |
| Simulation.PriceAfter | src/App.tsx:292-301 | the price after one `Step` per draw, in draw order; `PriceAfterPrefix`, `ZeroVolatilityPrice` and `OneMoreYear` characterise it |
| Simulation.PathValue | src/App.tsx:292-306 | a path's ending value, shares times price; `SimulatePath` computes it, and `ZeroHorizon`, `OneMoreYear`, `ZeroVolatilityPath` and `OneYearExample` pin it down |
| Simulation.PriceAfterPrefix | src/App.tsx:299-301 | extending the draws by one year multiplies the price by that year's growth factor |
| Percentiles.Insert | src/App.tsx:65 | inserting into a sorted sequence keeps it sorted and adds exactly that element (multiset) |
| Percentiles.BoundedBelow | src/App.tsx:65 | a lower bound of the old elements and of the inserted one bounds every element of the result |
| Percentiles.SortedCons | src/App.tsx:65 | a lower bound of a sorted sequence can be placed in front and the result stays sorted |
| Percentiles.SortAscending | src/App.tsx:65 | the result is sorted ascending and is a permutation of the input |
| Percentiles.PercentileIndex | src/App.tsx:66-68 | the index `floor(n * p)`; `PercentileIndexInRange`, `PercentileIndexMonotone` and `TableIndices` characterise it |
| Percentiles.PercentileIndexInRange | src/App.tsx:66-68 | for `n >= 1` and `0 <= p < 1`, `floor(n * p)` is a valid index, so no clamp is needed |
| Percentiles.PercentileIndexMonotone | src/App.tsx:66-68 | the index does not decrease as the percentile grows |
| Percentiles.TableIndices | src/App.tsx:66-68 | the three indices for 0.1, 0.5 and 0.9 are in range and ordered |
| Percentiles.Pick | src/App.tsx:66-68 | the picked value is a sample, at least every sample before its index and at most every sample from its index on |
| Percentiles.PickMonotone | src/App.tsx:66-68 | on sorted samples a higher percentile never picks a smaller value |
| Projection.Years | src/App.tsx:17 | the horizons are exactly 1..30 in order |
| Projection.YearRow | src/App.tsx:65-70 | a row carries its year, and its percentiles satisfy 10th <= 50th <= 90th |
| Projection.YearRowSamples | src/App.tsx:65-68 | each percentile of a row is one of the simulated results |
| Projection.FromPercent | src/App.tsx:61-62 | a rate entered in percent becomes the fraction `r` with `r * 100 == percent` |
| Projection.RowFor | src/App.tsx:57-70 | the row of a horizon, simulated with rates divided by 100, has that year and ordered percentiles |
| Projection.AppendRows | src/App.tsx:56-71 | the `reduce` that appends each year's row to the accumulator; `AppendRowsContents` characterises it |
| Projection.RowOf | src/App.tsx:56-70 | the `reduce` callback: the row of a horizon from that horizon's draws; `TableRows` pins the table to it |
| Projection.SimulationTable | src/App.tsx:55-71 | the table for horizons 1..30; `TableRows` gives its rows and `TableShape` its shape |
| Projection.AppendRowsContents | src/App.tsx:56-71 | the fold keeps the accumulator and appends the row of each year, in order |
| Projection.FoldOverYears | src/App.tsx:17 | folding over horizons 1..30 puts the row of horizon `k + 1` at index `k` |
| Projection.TableRows | src/App.tsx:55-71 | the table has 30 rows, and row `k` summarises the simulation of horizon `k + 1` from that horizon's draws |
| Projection.TableShape | src/App.tsx:55-71 | the table is well formed: years 1..30 in order, each with ordered percentiles |
| Projection.FoldWellFormed | src/App.tsx:56-71 | a fold whose every row is well formed gives a well-formed table |
| Projection.ZeroVolatilityRow | src/App.tsx:57-68 | with 0% volatility all three percentiles equal the deterministic compounded value for that horizon |
| Projection.ZeroVolatilityYearRow | src/App.tsx:57-68 | the same collapse for any rate, stated on the summary of the simulated results |
| Projection.YearRowOfEqualResults | src/App.tsx:65-68 | when every result is `v`, every percentile is `v` |
| Projection.BaselineRow | src/App.tsx:146-154 | the year-0 row has year 0 and `initialShares * initialPrice` in all three percentile slots |
| Projection.BaselineIsHorizonZero | src/App.tsx:146-154 | the baseline equals what any path of horizon 0 returns |
| Projection.BaselineMedianPrice | src/App.tsx:173-189 | with nonzero initial shares, the general median-price formula applied to the baseline gives the initial price that the year-0 row displays |
| Projection.ChartRows | src/App.tsx:146-154 | the chart receives the baseline row followed by the simulated table, unchanged |
| Projection.PlanYear | src/App.tsx:194-196 | the plan year is the horizon plus 2023 |
| Projection.TotalShares | src/App.tsx:197-199 | the Total Shares column, `initialShares + annualShares * year`; `TotalSharesMatchesSimulation` ties it to the simulator |
| Projection.TotalSharesMatchesSimulation | src/App.tsx:197-199 | the total-shares column equals the share count the simulator accumulates over that many years |
| Projection.MedianPrice | src/App.tsx:200-204 | the price is absent exactly when total shares are 0; otherwise price times total shares is the median value |
| Projection.ZeroVolatilityMedianPrice | src/App.tsx:200-204 | with 0% volatility the median price column shows `initialPrice * (1 + growth)^year` |
| Projection.MedianOfCompoundedValue | src/App.tsx:200-204 | a median equal to the deterministic value gives the deterministic price per share |
| NumberFormat.Lookup | src/components/monte-carlo-chart.tsx:103-110 | the threshold table 1, 1e3, 1e6, 1e9, 1e12, 1e15 with symbols "", k, M, B, T, Q; `ScaleFor` and `NFormatQuadrillions` use it |
| NumberFormat.FindLastIndex | src/components/monte-carlo-chart.tsx:112 | the last table index whose value is at most `num`, or -1, with every later entry above `num` |
| NumberFormat.ScaleFor | src/components/monte-carlo-chart.tsx:103-112 | no scale below 1; otherwise the largest threshold not above `num`, and "Q" from 1e15 up |
| NumberFormat.ScaledIntoRange | src/components/monte-carlo-chart.tsx:103-114 | below 1e18 the scaled number lies in [1, 1000) |
| NumberFormat.PointZerosAt | src/components/monte-carlo-chart.tsx:111 | the alternative `\.0+$` matches at a position; `PointMatchesZeroFraction` uses it |
| NumberFormat.ZerosAfterNonzeroAt | src/components/monte-carlo-chart.tsx:111 | the alternative `(?<=\.[0-9]*[1-9])0+$` matches at a position; `MatchAfterLastNonzero` uses it |
| NumberFormat.MatchAt | src/components/monte-carlo-chart.tsx:111 | either alternative of the pattern matches at a position; `StripZerosFixed` and `StripZerosNoPoint` characterise it |
| NumberFormat.StripZeros | src/components/monte-carlo-chart.tsx:114 | the `.replace(regexp, "")`: the text before the leftmost match; `StripZerosLeftmost`, `StripZerosFixed` and `StripZerosNoPoint` characterise it |
| NumberFormat.StripZerosLeftmost | src/components/monte-carlo-chart.tsx:111-114 | the replacement keeps a prefix of the text, cut exactly where the leftmost match starts, or keeps all of it when nothing matches |
| NumberFormat.FirstMatch | src/components/monte-carlo-chart.tsx:111-114 | the leftmost position where the pattern matches, with no match before it |
| NumberFormat.TrimZeros | src/components/monte-carlo-chart.tsx:111 | reference definition: the text without trailing zeros, and only zeros removed |
| NumberFormat.FirstMatchZeroFraction | src/components/monte-carlo-chart.tsx:111 | on `ip.000…` the leftmost match starts at the point |
| NumberFormat.FirstMatchNonzeroFraction | src/components/monte-carlo-chart.tsx:111 | on `ip.fp` with a nonzero fractional digit, the leftmost match starts right after the last nonzero digit |
| NumberFormat.KeepThroughFraction | src/components/monte-carlo-chart.tsx:114 | cutting fixed-point text at that match leaves the integer part, plus the point and kept digits when any remain |
| NumberFormat.StripZerosFixed | src/components/monte-carlo-chart.tsx:111-114 | on fixed-point text, the replacement removes exactly the trailing fractional zeros, and the point as well when the whole fraction was zeros |
| NumberFormat.StripZerosNoPoint | src/components/monte-carlo-chart.tsx:111-114 | text without a decimal point is unchanged (integer zeros stay) |
| NumberFormat.StripZerosExamples | src/components/monte-carlo-chart.tsx:111-114 | "10.00" becomes "10", "1.500" becomes "1.5", and "100" stays "100" |
| NumberFormat.NFormat | src/components/monte-carlo-chart.tsx:102-116 | numbers below 1 format as "0" |
| NumberFormat.NFormatScaled | src/components/monte-carlo-chart.tsx:102-116 | from 1 up, the text is the stripped fixed-point quotient by the largest threshold not above `num`, followed by its symbol |
| NumberFormat.NFormatQuadrillions | src/components/monte-carlo-chart.tsx:103-116 | from 1e15 up, the number is divided by 1e15 and suffixed "Q" |
| Chart.ToChartData | src/components/monte-carlo-chart.tsx:34-39 | one point per row in the same order, with year + 2023 and the percentiles copied |
| Chart.ChartYearIsPlanYear | src/components/monte-carlo-chart.tsx:35 | the chart's calendar year of a row is the table's plan year of that row |
| Chart.ProjectionChart | src/App.tsx:146-154 | the chart has 31 points for 2023..2053, the first with the initial value in every band, and every point's bands are ordered |

## Left out

- `randomNormalDistribution` (src/App.tsx:313-319) uses `Math.random`, a logarithm and a cosine. The model takes its draws as an input, one row of `years` draws per path.
- IEEE-754 rounding is not modelled: all arithmetic is exact over `real`, and `Math.floor` is exact `Floor`.
- `toFixed(digits)` is floating-point printing, so `NumberFormat.NFormat` takes it as a function parameter. The `digits` argument (default 3) lives inside that parameter.
- `formatMoney` is not modelled. Its currency text rendering is presentation only.
- React state, `useDebounce`, the URL query string, the form widgets, the table and chart rendering, and `src/components/ui/slider.tsx` are not modelled. They are UI plumbing around the engine.
- Percentiles.Pick requires at least one sample. With zero simulations the source would read `undefined`, which the table never does because it always runs 1000 paths.
- Projection.MedianPrice models the zero-shares case (JavaScript shows `Infinity` or `NaN`) as `None`.
- The source comment on the yearly step speaks of geometric Brownian motion, but the code applies an additive shock, `price *= 1 + annualGrowthRate + annualVolatility * z`. The model follows the code. A log-normal step, a growth-rate decay with a floor, a clamp of the percentile index, and an error for zero paths are not in this source, so the model does not have them.
- Simulation.MonteCarloSimulation does not restate the horizon-0 value in its own contract. `Simulation.ZeroHorizon` states it about the function the method is proved equal to.
