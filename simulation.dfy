/**
 * The Monte Carlo path simulator of the share-price projection
 * (`monteCarloSimulation` in src/App.tsx).
 *
 * Each path starts from an initial price and share count; every simulated
 * year first adds the annual contribution of shares and then moves the price
 * by an additive shock, `price := price * (1 + rate + vol * z)`, where `z` is
 * one standard-normal draw. The path's result is shares times final price.
 *
 * The normal variate generator is not modelled: its draws are injected as
 * one sequence per path holding one draw per simulated year, consumed in
 * order. Arithmetic is over `real`, an idealisation of IEEE-754 doubles.
 */
module Simulation {

  /** `base` raised to the power `n`. */
  function Pow(base: real, n: nat): (r: real)
  {
    if n == 0 then 1.0 else base * Pow(base, n - 1)
  }

  /** The share count after `years` yearly contributions of `annualShares`, added one at a time. */
  function SharesAfter(initialShares: real, annualShares: real, years: nat): (r: real)
  {
    if years == 0 then initialShares else SharesAfter(initialShares, annualShares, years - 1) + annualShares
  }

  /** The accumulated share count has the closed form `initialShares + annualShares * years`. */
  lemma {:induction false} SharesAfterClosedForm(initialShares: real, annualShares: real, years: nat)
    ensures SharesAfter(initialShares, annualShares, years) == initialShares + annualShares * years as real
  {
    if years > 0 {
      SharesAfterClosedForm(initialShares, annualShares, years - 1);
      assert annualShares * years as real == annualShares * (years - 1) as real + annualShares;
    }
  }

  /** One year's price move: growth is the drift plus volatility times the draw. */
  function Step(price: real, rate: real, vol: real, z: real): (r: real)
  {
    price * (1.0 + (rate + vol * z))
  }

  /** The price after applying one `Step` per draw, in the order of `draws`. */
  function PriceAfter(initialPrice: real, rate: real, vol: real, draws: seq<real>): (r: real)
  {
    if |draws| == 0 then initialPrice
    else Step(PriceAfter(initialPrice, rate, vol, draws[..|draws| - 1]), rate, vol, draws[|draws| - 1])
  }

  /** The ending portfolio value of one path whose horizon is `|draws|` years. */
  function PathValue(initialPrice: real, initialShares: real, annualShares: real,
                     rate: real, vol: real, draws: seq<real>): (r: real)
  {
    SharesAfter(initialShares, annualShares, |draws|) * PriceAfter(initialPrice, rate, vol, draws)
  }

  /** The price after `years` years of compounding at `rate` with no shocks. */
  function CompoundedPrice(initialPrice: real, rate: real, years: nat): (r: real)
  {
    initialPrice * Pow(1.0 + rate, years)
  }

  /** The deterministic portfolio value: `years` contributions and compounding with no shocks. */
  function CompoundedValue(initialPrice: real, initialShares: real, annualShares: real,
                           rate: real, years: nat): (r: real)
  {
    SharesAfter(initialShares, annualShares, years) * CompoundedPrice(initialPrice, rate, years)
  }

  /** The results of a whole simulation: one path value per row of draws, in path order. */
  function Simulated(initialPrice: real, initialShares: real, annualShares: real,
                     rate: real, vol: real, paths: seq<seq<real>>): (r: seq<real>)
    ensures |r| == |paths|
    ensures forall i :: 0 <= i < |paths| ==>
              r[i] == PathValue(initialPrice, initialShares, annualShares, rate, vol, paths[i])
  {
    seq(|paths|, i requires 0 <= i < |paths| =>
      PathValue(initialPrice, initialShares, annualShares, rate, vol, paths[i]))
  }

  /** Every path has exactly one draw per simulated year. */
  predicate DrawsShaped(paths: seq<seq<real>>, years: nat)
  {
    forall i :: 0 <= i < |paths| ==> |paths[i]| == years
  }

  /**
   * The simulator itself: `numSimulations` paths of `years` years each.
   * Path `i` consumes the draws `draws[i]`, one per year, in order.
   */
  method MonteCarloSimulation(initialPrice: real, annualShares: real, years: nat,
                              annualGrowthRate: real, annualVolatility: real,
                              numSimulations: nat, initialShares: real,
                              draws: seq<seq<real>>)
    returns (results: seq<real>)
    requires |draws| == numSimulations && DrawsShaped(draws, years)
    ensures |results| == numSimulations
    ensures results == Simulated(initialPrice, initialShares, annualShares,
                                 annualGrowthRate, annualVolatility, draws)
  {
    results := [];
    var i := 0;
    while i < numSimulations
      invariant 0 <= i <= numSimulations
      invariant |results| == i
      invariant forall j :: 0 <= j < i ==>
                  results[j] == PathValue(initialPrice, initialShares, annualShares,
                                          annualGrowthRate, annualVolatility, draws[j])
    {
      var portfolioValue := SimulatePath(initialPrice, annualShares, years, annualGrowthRate,
                                         annualVolatility, initialShares, draws[i]);
      results := results + [portfolioValue];
      i := i + 1;
    }
  }

  /**
   * One path of the simulator: each year adds the annual shares, then moves
   * the price by the drift plus volatility times that year's draw.
   */
  method SimulatePath(initialPrice: real, annualShares: real, years: nat, annualGrowthRate: real,
                      annualVolatility: real, initialShares: real, draws: seq<real>)
    returns (portfolioValue: real)
    requires |draws| == years
    ensures portfolioValue == PathValue(initialPrice, initialShares, annualShares,
                                        annualGrowthRate, annualVolatility, draws)
  {
    var price := initialPrice;
    var totalShares := initialShares;
    portfolioValue := initialShares * price;
    var year := 0;
    while year < years
      invariant 0 <= year <= years
      invariant totalShares == SharesAfter(initialShares, annualShares, year)
      invariant price == PriceAfter(initialPrice, annualGrowthRate, annualVolatility, draws[..year])
      invariant portfolioValue == totalShares * price
    {
      totalShares := totalShares + annualShares;
      var growth := annualGrowthRate + annualVolatility * draws[year];
      PriceAfterPrefix(initialPrice, annualGrowthRate, annualVolatility, draws, year);
      price := price * (1.0 + growth);
      portfolioValue := totalShares * price;
      year := year + 1;
    }
    assert draws[..year] == draws;
  }

  /** The price after the first `k + 1` draws is one `Step` past the price after `k`. */
  lemma PriceAfterPrefix(initialPrice: real, rate: real, vol: real, draws: seq<real>, k: nat)
    requires k < |draws|
    ensures PriceAfter(initialPrice, rate, vol, draws[..k + 1])
            == Step(PriceAfter(initialPrice, rate, vol, draws[..k]), rate, vol, draws[k])
  {
    assert draws[..k + 1][..k] == draws[..k];
  }

  /** With no volatility the draws are irrelevant: the price compounds at `rate`. */
  lemma {:induction false} ZeroVolatilityPrice(initialPrice: real, rate: real, vol: real, draws: seq<real>)
    requires vol == 0.0
    ensures PriceAfter(initialPrice, rate, vol, draws) == CompoundedPrice(initialPrice, rate, |draws|)
  {
    if |draws| > 0 {
      ZeroVolatilityPrice(initialPrice, rate, vol, draws[..|draws| - 1]);
    }
  }

  /** With no volatility every path ends at the same deterministic value. */
  lemma ZeroVolatilityPath(initialPrice: real, initialShares: real, annualShares: real,
                           rate: real, vol: real, draws: seq<real>)
    requires vol == 0.0
    ensures PathValue(initialPrice, initialShares, annualShares, rate, vol, draws)
            == CompoundedValue(initialPrice, initialShares, annualShares, rate, |draws|)
  {
    ZeroVolatilityPrice(initialPrice, rate, vol, draws);
  }

  /** With no volatility all results of a simulation coincide. */
  lemma ZeroVolatilityCollapse(initialPrice: real, initialShares: real, annualShares: real,
                               rate: real, vol: real, years: nat, paths: seq<seq<real>>)
    requires vol == 0.0 && DrawsShaped(paths, years)
    ensures forall i :: 0 <= i < |paths| ==>
              Simulated(initialPrice, initialShares, annualShares, rate, vol, paths)[i]
              == CompoundedValue(initialPrice, initialShares, annualShares, rate, years)
  {
    forall i | 0 <= i < |paths|
      ensures Simulated(initialPrice, initialShares, annualShares, rate, vol, paths)[i]
              == CompoundedValue(initialPrice, initialShares, annualShares, rate, years)
    {
      ZeroVolatilityPath(initialPrice, initialShares, annualShares, rate, vol, paths[i]);
    }
  }

  /** A horizon of zero years uses no draws and values the initial holding. */
  lemma ZeroHorizon(initialPrice: real, initialShares: real, annualShares: real,
                    rate: real, vol: real)
    ensures PathValue(initialPrice, initialShares, annualShares, rate, vol, [])
            == initialShares * initialPrice
  {
  }

  /**
   * Appending a year to a path adds one contribution before the price moves
   * by exactly that year's draw.
   */
  lemma {:induction false} OneMoreYear(initialPrice: real, initialShares: real, annualShares: real,
                                       rate: real, vol: real, draws: seq<real>, z: real)
    ensures PathValue(initialPrice, initialShares, annualShares, rate, vol, draws + [z])
            == (SharesAfter(initialShares, annualShares, |draws|) + annualShares)
               * (PriceAfter(initialPrice, rate, vol, draws) * (1.0 + rate + vol * z))
  {
    assert (draws + [z])[..|draws|] == draws;
  }

  /** Price 100, no initial shares, 50 shares a year, 10% growth, no volatility, one year: 5500. */
  lemma OneYearExample(z: real)
    ensures PathValue(100.0, 0.0, 50.0, 0.10, 0.0, [z]) == 5500.0
  {
    ZeroVolatilityPath(100.0, 0.0, 50.0, 0.10, 0.0, [z]);
    assert CompoundedPrice(100.0, 0.10, 1) == 110.0;
  }
}
