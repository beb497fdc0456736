/** The annually rebalanced path of a weighted mix (src/omni/api/scanner.py), over exact reals. */
module MixHistory {
  import opened Reals
  import opened Options

  type Price = Positive

  /** One trading date: its calendar year and the price of every held asset. */
  datatype Row = Row(year: int, prices: seq<Price>)

  datatype Position = Position(symbol: string, weight: real)

  /** `yearly` is the year-to-percent-return table, in insertion order. */
  datatype Path = Path(chained: seq<real>, yearly: seq<(int, real)>)

  function Total(positions: seq<Position>): real {
    if positions == [] then 0.0 else Total(positions[..|positions| - 1]) + positions[|positions| - 1].weight
  }

  function Normalised(positions: seq<Position>): (weights: seq<real>)
    requires Total(positions) > 0.0
    ensures |weights| == |positions|
  {
    seq(|positions|, i requires 0 <= i < |positions| => Ratio(positions[i].weight, Total(positions)))
  }

  /** Date-ordered rows of `width` prices each. */
  ghost predicate ValidHeld(held: seq<Row>, width: nat) {
    && held != []
    && (forall t :: 0 <= t < |held| ==> |held[t].prices| == width)
    && (forall s, t :: 0 <= s < t < |held| ==> held[s].year <= held[t].year)
  }

  /** What one asset adds to the blend: its price relative times its weight. */
  function Part(now: Price, base: Price, weight: real): real {
    Ratio(now, base) * weight
  }

  /** The weighted sum of the first n price relatives. */
  function Mix(weights: seq<real>, now: seq<Price>, base: seq<Price>, n: nat): real
    requires n <= |weights| == |now| == |base|
  {
    if n == 0 then 0.0
    else Mix(weights, now, base, n - 1) + Part(now[n - 1], base[n - 1], weights[n - 1])
  }

  // ----- what the path means, date by date -----

  /** The date a row is measured from: the last close of an earlier year, or the first date. */
  ghost function Base(held: seq<Row>, t: nat): (b: nat)
    requires t < |held|
    ensures b <= t && (held[t].year != held[0].year ==> b < t)
  {
    if t == 0 || held[t].year == held[0].year then 0
    else if held[t].year != held[t - 1].year then t - 1
    else Base(held, t - 1)
  }

  ghost function Growth(held: seq<Row>, weights: seq<real>, t: nat): real
    requires ValidHeld(held, |weights|) && t < |held|
  {
    Mix(weights, held[t].prices, held[Base(held, t)].prices, |weights|)
  }

  ghost function Level(held: seq<Row>, weights: seq<real>, t: nat): real
    requires ValidHeld(held, |weights|) && t < |held|
    decreases t
  {
    Product(if held[t].year == held[0].year then 1.0 else Level(held, weights, Base(held, t)),
            Growth(held, weights, t))
  }

  /** The growth factors of percent returns, compounded. */
  ghost function Compounded(yearly: seq<(int, real)>): real {
    if yearly == [] then 1.0
    else Product(Compounded(yearly[..|yearly| - 1]), 1.0 + yearly[|yearly| - 1].1 / 100.0)
  }

  ghost predicate LastOfYear(held: seq<Row>, e: nat) {
    e < |held| && (e + 1 == |held| || held[e + 1].year != held[e].year)
  }

  /** The return table of the first n dates: one entry at each date that ends its calendar year. */
  ghost function YearReturns(held: seq<Row>, weights: seq<real>, n: nat): seq<(int, real)>
    requires ValidHeld(held, |weights|) && n <= |held|
  {
    if n == 0 then []
    else YearReturns(held, weights, n - 1)
         + if LastOfYear(held, n - 1) then [(held[n - 1].year, (Growth(held, weights, n - 1) - 1.0) * 100.0)] else []
  }

  // ----- the loop over years -----

  /** Where the calendar year that is running at date t ends: one past its last date. */
  function YearEnd(held: seq<Row>, t: nat): (end: nat)
    requires t < |held|
    ensures t < end <= |held| && LastOfYear(held, end - 1)
    ensures forall s :: t <= s < end ==> held[s].year == held[t].year
    decreases |held| - t
  {
    if t + 1 < |held| && held[t + 1].year == held[t].year then YearEnd(held, t + 1) else t + 1
  }

  /** The levels of the dates from `start` up to `stop`. */
  ghost function Levels(held: seq<Row>, weights: seq<real>, start: nat, stop: nat): (levels: seq<real>)
    requires ValidHeld(held, |weights|) && start <= stop <= |held|
    ensures |levels| == stop - start
  {
    seq(stop - start, k requires 0 <= k < stop - start => Level(held, weights, start + k))
  }

  /** The state between two years: what the next year is measured from, and the value it starts at. */
  ghost predicate AtYearStart(held: seq<Row>, weights: seq<real>, start: nat, value: real, base: seq<Price>)
    requires ValidHeld(held, |weights|) && start <= |held|
  {
    && (start == 0 ==> value == 1.0 && base == held[0].prices)
    && (start > 0 ==> base == held[start - 1].prices && value == Level(held, weights, start - 1)
                      && LastOfYear(held, start - 1))
  }

  /** The blended relatives of the dates from start to stop against one base row. */
  function YearMix(held: seq<Row>, weights: seq<real>, start: nat, stop: nat, base: seq<Price>): (mix: seq<real>)
    requires ValidHeld(held, |weights|) && start <= stop <= |held| && |base| == |weights|
    ensures |mix| == stop - start
  {
    seq(stop - start, k requires 0 <= k < stop - start =>
        Mix(weights, held[start + k].prices, base, |weights|))
  }

  function Scaled(value: real, mix: seq<real>): (levels: seq<real>)
    ensures |levels| == |mix|
  {
    seq(|mix|, k requires 0 <= k < |mix| => Product(value, mix[k]))
  }

  method MixPath(held: seq<Row>, positions: seq<Position>) returns (r: Option<Path>)
    requires ValidHeld(held, |positions|)
    ensures r.None? <==> positions == [] || Total(positions) <= 0.0
    ensures r.Some? ==>
              var weights := Normalised(positions);
              && r.value.chained == Levels(held, weights, 0, |held|)
              && r.value.yearly == YearReturns(held, weights, |held|)
  {
    hide Product, Part;
    if positions == [] || Total(positions) <= 0.0 {
      return None;
    }
    var weights := Normalised(positions);
    var chained: seq<real>, yearly: seq<(int, real)> := [], [];
    var base, value, start := held[0].prices, 1.0, 0;
    while start < |held|
      invariant 0 <= start <= |held|
      invariant AtYearStart(held, weights, start, value, base)
      invariant chained == Levels(held, weights, 0, start)
      invariant yearly == YearReturns(held, weights, start)
    {
      var stop := YearEnd(held, start);
      var mix := YearMix(held, weights, start, stop, base);
      var end := mix[|mix| - 1];
      YearLevels(held, weights, start, stop, value, base);
      YearReturnsStep(held, weights, start, stop);
      LevelsJoin(held, weights, start, stop);
      chained := chained + Scaled(value, mix);
      value := Product(value, end);
      yearly := yearly + [(held[start].year, (end - 1.0) * 100.0)];
      base := held[stop - 1].prices;
      start := stop;
    }
    r := Some(Path(chained, yearly));
  }

  lemma LevelsJoin(held: seq<Row>, weights: seq<real>, start: nat, stop: nat)
    requires ValidHeld(held, |weights|) && start <= stop <= |held|
    ensures Levels(held, weights, 0, start) + Levels(held, weights, start, stop) == Levels(held, weights, 0, stop)
  {
    hide Product, Part;
  }

  lemma YearLevels(held: seq<Row>, weights: seq<real>, start: nat, stop: nat, value: real, base: seq<Price>)
    requires ValidHeld(held, |weights|) && start < stop <= |held| && |base| == |weights|
    requires AtYearStart(held, weights, start, value, base)
    requires LastOfYear(held, stop - 1) && forall t :: start <= t < stop ==> held[t].year == held[start].year
    ensures Scaled(value, YearMix(held, weights, start, stop, base)) == Levels(held, weights, start, stop)
    ensures var end := YearMix(held, weights, start, stop, base)[stop - start - 1];
            && end == Growth(held, weights, stop - 1)
            && AtYearStart(held, weights, stop, Product(value, end), held[stop - 1].prices)
  {
    hide Product, Part;
    var scaled, levels := Scaled(value, YearMix(held, weights, start, stop, base)), Levels(held, weights, start, stop);
    forall k: nat | k < stop - start ensures scaled[k] == levels[k] {
      YearLevel(held, weights, start, start + k, value, base);
    }
    YearLevel(held, weights, start, stop - 1, value, base);
  }

  /** Every date of a year that starts at `start` is measured from the close just before it. */
  lemma YearLevel(held: seq<Row>, weights: seq<real>, start: nat, t: nat, value: real, base: seq<Price>)
    requires ValidHeld(held, |weights|) && start <= t < |held|
    requires AtYearStart(held, weights, start, value, base)
    requires held[t].year == held[start].year
    ensures Growth(held, weights, t) == Mix(weights, held[t].prices, base, |weights|)
    ensures Level(held, weights, t) == Product(value, Growth(held, weights, t))
  {
    hide Product, Part;
    BaseInYear(held, start, t);
  }

  lemma BaseInYear(held: seq<Row>, start: nat, t: nat)
    requires start <= t < |held| && start < |held|
    requires forall s, t :: 0 <= s < t < |held| ==> held[s].year <= held[t].year
    requires start > 0 ==> held[start - 1].year != held[start].year
    requires held[t].year == held[start].year
    ensures held[t].year == held[0].year <==> start == 0
    ensures Base(held, t) == if start == 0 then 0 else start - 1
    decreases t
  {
    if start > 0 && t > start {
      BaseInYear(held, start, t - 1);
    }
  }

  lemma {:induction false} YearReturnsStep(held: seq<Row>, weights: seq<real>, start: nat, stop: nat)
    requires ValidHeld(held, |weights|) && start < stop <= |held| && LastOfYear(held, stop - 1)
    requires forall t :: start <= t < stop ==> held[t].year == held[start].year
    ensures YearReturns(held, weights, stop) == YearReturns(held, weights, start)
            + [(held[start].year, (Growth(held, weights, stop - 1) - 1.0) * 100.0)]
  {
    hide Product, Part;
    YearReturnsIdle(held, weights, start, stop - 1);
  }

  lemma YearReturnsIdle(held: seq<Row>, weights: seq<real>, n: nat, m: nat)
    requires ValidHeld(held, |weights|) && n <= m <= |held|
    requires forall e :: n <= e < m ==> !LastOfYear(held, e)
    ensures YearReturns(held, weights, m) == YearReturns(held, weights, n)
    decreases m
  {
    if n < m {
      YearReturnsIdle(held, weights, n, m - 1);
    }
  }

  // ----- properties of the path -----

  /** At the close of every calendar year the path is the product of the yearly growth factors so far. */
  lemma {:induction false} EndIsProduct(held: seq<Row>, weights: seq<real>, n: nat)
    requires ValidHeld(held, |weights|) && 1 <= n <= |held| && LastOfYear(held, n - 1)
    ensures Level(held, weights, n - 1) == Compounded(YearReturns(held, weights, n))
  {
    hide Product, Part;
    var e, start := n - 1, YearStart(held, n - 1);
    BaseInYear(held, start, e);
    YearReturnsIdle(held, weights, start, e);
    CompoundedGrows(YearReturns(held, weights, start), held[e].year, Growth(held, weights, e));
    if start > 0 {
      EndIsProduct(held, weights, start);
    }
  }

  ghost function YearStart(held: seq<Row>, t: nat): (start: nat)
    requires t < |held|
    ensures start <= t && (start > 0 ==> LastOfYear(held, start - 1) && held[start - 1].year != held[start].year)
    ensures forall s :: start <= s <= t ==> held[s].year == held[t].year
    ensures forall s :: start <= s < t ==> !LastOfYear(held, s)
  {
    if t > 0 && held[t - 1].year == held[t].year then YearStart(held, t - 1) else t
  }

  lemma CompoundedGrows(yearly: seq<(int, real)>, year: int, end: real)
    ensures Compounded(yearly + [(year, (end - 1.0) * 100.0)]) == Product(Compounded(yearly), end)
  {
    hide Product, Part;
    var grown := yearly + [(year, (end - 1.0) * 100.0)];
    assert grown[..|grown| - 1] == yearly;
    assert 1.0 + (end - 1.0) * 100.0 / 100.0 == end;
  }

  /** A mix of one asset is that asset: the yearly rebasing telescopes to the plain price ratio. */
  lemma {:induction false} OneAssetTelescopes(held: seq<Row>, position: Position, t: nat)
    requires ValidHeld(held, 1) && position.weight > 0.0 && t < |held|
    requires Total([position]) > 0.0
    ensures Level(held, Normalised([position]), t) == Ratio(held[t].prices[0], held[0].prices[0])
    decreases t
  {
    var weights := Normalised([position]);
    assert [position][..0] == [];
    assert Total([position]) == Total([]) + position.weight;
    DivideSelf(position.weight);
    var b := Base(held, t);
    assert Growth(held, weights, t) == Ratio(held[t].prices[0], held[b].prices[0]) by {
      assert Mix(weights, held[t].prices, held[b].prices, 0) == 0.0;
    }
    if held[t].year != held[0].year {
      OneAssetTelescopes(held, position, b);
      Chain(held[0].prices[0], held[b].prices[0], held[t].prices[0]);
    }
  }

  lemma {:induction false} MixOfOne(weights: seq<real>, now: seq<Price>, base: seq<Price>, k: nat, n: nat)
    requires k < |weights| == |now| == |base| && n <= |weights|
    requires forall i :: 0 <= i < |weights| && i != k ==> weights[i] == 0.0
    ensures Mix(weights, now, base, n) == if n > k then Part(now[k], base[k], weights[k]) else 0.0
  {
    hide Part;
    if n > 0 {
      MixOfOne(weights, now, base, k, n - 1);
      NoWeight(now[n - 1], base[n - 1]);
    }
  }

  lemma NoWeight(now: Price, base: Price)
    ensures Part(now, base, 0.0) == 0.0
  {
  }

  lemma FullWeight(now: Price, base: Price)
    ensures Part(now, base, 1.0) == Ratio(now, base)
  {
  }

  lemma {:induction false} TotalOfOne(positions: seq<Position>, k: nat)
    requires k < |positions| && forall i :: 0 <= i < |positions| && i != k ==> positions[i].weight == 0.0
    ensures Total(positions) == positions[k].weight
  {
    var n := |positions| - 1;
    if k < n {
      TotalOfOne(positions[..n], k);
    } else {
      TotalOfNone(positions[..n]);
    }
  }

  lemma {:induction false} TotalOfNone(positions: seq<Position>)
    requires forall i :: 0 <= i < |positions| ==> positions[i].weight == 0.0
    ensures Total(positions) == 0.0
  {
    if positions != [] {
      TotalOfNone(positions[..|positions| - 1]);
    }
  }

  lemma NormalisedOfOne(positions: seq<Position>, k: nat)
    requires k < |positions| && positions[k].weight > 0.0
    requires forall i :: 0 <= i < |positions| && i != k ==> positions[i].weight == 0.0
    ensures Total(positions) > 0.0
    ensures forall i :: 0 <= i < |positions| ==> Normalised(positions)[i] == if i == k then 1.0 else 0.0
  {
    hide Ratio;
    TotalOfOne(positions, k);
    DivideSelf(positions[k].weight);
    ZeroRatio(positions[k].weight);
  }

  /** Each weight belongs to its own asset: a mix that holds only the k-th of many is that asset's plain
      price ratio at every date. */
  lemma {:induction false} OnlyOneHeld(held: seq<Row>, positions: seq<Position>, k: nat, t: nat)
    requires ValidHeld(held, |positions|) && k < |positions| && t < |held| && positions[k].weight > 0.0
    requires forall i :: 0 <= i < |positions| && i != k ==> positions[i].weight == 0.0
    requires Total(positions) > 0.0
    ensures Level(held, Normalised(positions), t) == Ratio(held[t].prices[k], held[0].prices[k])
    decreases t
  {
    hide Product, Ratio, Part, Mix, Normalised;
    var weights, b := Normalised(positions), Base(held, t);
    NormalisedOfOne(positions, k);
    MixOfOne(weights, held[t].prices, held[b].prices, k, |weights|);
    FullWeight(held[t].prices[k], held[b].prices[k]);
    if held[t].year == held[0].year {
      BaseOfFirstYear(held, t);
      UnitFirst(Ratio(held[t].prices[k], held[0].prices[k]));
    } else {
      OnlyOneHeld(held, positions, k, b);
      Chain(held[0].prices[k], held[b].prices[k], held[t].prices[k]);
    }
  }

  lemma BaseOfFirstYear(held: seq<Row>, t: nat)
    requires t < |held| && held[t].year == held[0].year
    ensures Base(held, t) == 0
  {
  }

  lemma UnitFirst(x: real)
    ensures Product(1.0, x) == x
  {
  }

  /** The growth at a date is additive in the weights: the blend is a sum over the assets. */
  lemma {:induction false} MixAdds(u: seq<real>, v: seq<real>, w: seq<real>, now: seq<Price>, base: seq<Price>, n: nat)
    requires |u| == |v| == |w| == |now| == |base| && n <= |w|
    requires forall i :: 0 <= i < |w| ==> w[i] == u[i] + v[i]
    ensures Mix(w, now, base, n) == Mix(u, now, base, n) + Mix(v, now, base, n)
  {
    hide Part;
    if n > 0 {
      MixAdds(u, v, w, now, base, n - 1);
      PartAdds(now[n - 1], base[n - 1], u[n - 1], v[n - 1]);
    }
  }

  lemma PartAdds(now: Price, base: Price, u: real, v: real)
    ensures Part(now, base, u + v) == Part(now, base, u) + Part(now, base, v)
  {
  }

  /** Scaling every weight by one positive constant leaves the path unchanged. */
  lemma {:induction false} WeightScaleInvariant(held: seq<Row>, positions: seq<Position>, scaled: seq<Position>,
                                                c: real, t: nat)
    requires ValidHeld(held, |positions|) && t < |held| && |scaled| == |positions|
    requires c > 0.0 && Total(positions) > 0.0
    requires forall i :: 0 <= i < |positions| ==> scaled[i].weight == Product(c, positions[i].weight)
    ensures Total(scaled) > 0.0 && Level(held, Normalised(scaled), t) == Level(held, Normalised(positions), t)
  {
    NormalisedScales(positions, scaled, c);
  }

  lemma NormalisedScales(positions: seq<Position>, scaled: seq<Position>, c: real)
    requires |scaled| == |positions| && c > 0.0 && Total(positions) > 0.0
    requires forall i :: 0 <= i < |positions| ==> scaled[i].weight == Product(c, positions[i].weight)
    ensures Total(scaled) > 0.0 && Normalised(scaled) == Normalised(positions)
  {
    hide Product, Ratio;
    TotalScales(positions, scaled, c);
    PositiveProduct(c, Total(positions));
    var left, right := Normalised(scaled), Normalised(positions);
    forall i | 0 <= i < |positions| ensures left[i] == right[i] {
      Cancel(c, positions[i].weight, Total(positions));
    }
  }

  lemma {:induction false} TotalScales(positions: seq<Position>, scaled: seq<Position>, c: real)
    requires |scaled| == |positions|
    requires forall i :: 0 <= i < |positions| ==> scaled[i].weight == Product(c, positions[i].weight)
    ensures Total(scaled) == Product(c, Total(positions))
  {
    hide Product, Ratio;
    if positions != [] {
      var n := |positions| - 1;
      TotalScales(positions[..n], scaled[..n], c);
      Distribute(c, Total(positions[..n]), positions[n].weight);
    } else {
      Zero(c);
    }
  }

  /** The same history with asset k quoted in another unit. */
  ghost predicate Requoted(held: seq<Row>, scaled: seq<Row>, width: nat, k: nat, c: real)
    requires k < width && ValidHeld(held, width) && ValidHeld(scaled, width)
  {
    && |scaled| == |held|
    && (forall t :: 0 <= t < |held| ==> scaled[t].year == held[t].year)
    && (forall t, i :: 0 <= t < |held| && 0 <= i < width ==>
          scaled[t].prices[i] == if i == k then Product(c, held[t].prices[i]) else held[t].prices[i])
  }

  /** Scaling any one asset's prices by a positive constant leaves the path unchanged. */
  lemma {:induction false} PriceScaleInvariant(held: seq<Row>, scaled: seq<Row>, weights: seq<real>, k: nat, c: real, t: nat)
    requires k < |weights| && c > 0.0 && t < |held|
    requires ValidHeld(held, |weights|) && ValidHeld(scaled, |weights|)
    requires Requoted(held, scaled, |weights|, k, c)
    ensures Level(scaled, weights, t) == Level(held, weights, t)
    decreases t
  {
    hide Product, Ratio, Part, Mix;
    SameBase(held, scaled, t);
    var b := Base(held, t);
    MixRequoted(held, scaled, weights, k, c, t, b, |weights|);
    if held[t].year != held[0].year {
      PriceScaleInvariant(held, scaled, weights, k, c, b);
    }
  }

  lemma SameBase(held: seq<Row>, scaled: seq<Row>, t: nat)
    requires t < |held| == |scaled|
    requires forall t :: 0 <= t < |held| ==> scaled[t].year == held[t].year
    ensures Base(scaled, t) == Base(held, t)
  {
  }

  lemma {:induction false} MixRequoted(held: seq<Row>, scaled: seq<Row>, weights: seq<real>, k: nat, c: real,
                                       t: nat, b: nat, n: nat)
    requires k < |weights| && c > 0.0 && t < |held| && b < |held| && n <= |weights|
    requires ValidHeld(held, |weights|) && ValidHeld(scaled, |weights|)
    requires Requoted(held, scaled, |weights|, k, c)
    ensures Mix(weights, scaled[t].prices, scaled[b].prices, n) == Mix(weights, held[t].prices, held[b].prices, n)
  {
    hide Product, Ratio;
    if n > 0 {
      MixRequoted(held, scaled, weights, k, c, t, b, n - 1);
      if n - 1 == k {
        Cancel(c, held[t].prices[k], held[b].prices[k]);
      }
    }
  }

  // ----- averages -----

  function Sum(weights: seq<real>, n: nat): real
    requires n <= |weights|
  {
    if n == 0 then 0.0 else Sum(weights, n - 1) + weights[n - 1]
  }

  lemma {:induction false} MixBetween(weights: seq<real>, now: seq<Price>, base: seq<Price>, lo: real, hi: real, n: nat)
    requires n <= |weights| == |now| == |base|
    requires forall i :: 0 <= i < |weights| ==> weights[i] >= 0.0 && lo <= Ratio(now[i], base[i]) <= hi
    ensures Product(lo, Sum(weights, n)) <= Mix(weights, now, base, n) <= Product(hi, Sum(weights, n))
  {
    hide Product, Part, Ratio;
    if n > 0 {
      MixBetween(weights, now, base, lo, hi, n - 1);
      PartBetween(now[n - 1], base[n - 1], weights[n - 1], lo, hi);
      Distribute(lo, Sum(weights, n - 1), weights[n - 1]);
      Distribute(hi, Sum(weights, n - 1), weights[n - 1]);
    } else {
      Zero(lo);
      Zero(hi);
    }
  }

  lemma PartBetween(now: Price, base: Price, weight: real, lo: real, hi: real)
    requires weight >= 0.0 && lo <= Ratio(now, base) <= hi
    ensures Product(lo, weight) <= Part(now, base, weight) <= Product(hi, weight)
  {
    var x := Ratio(now, base);
    assert (x - lo) * weight >= 0.0 && (hi - x) * weight >= 0.0;
  }

  lemma NormalisedSum(positions: seq<Position>)
    requires Total(positions) > 0.0
    ensures Sum(Normalised(positions), |positions|) == 1.0
  {
    hide Product, Ratio;
    SumPrefix(positions, |positions|);
    assert positions[..|positions|] == positions;
    DivideSelf(Total(positions));
  }

  lemma {:induction false} SumPrefix(positions: seq<Position>, n: nat)
    requires n <= |positions| && Total(positions) > 0.0
    ensures Sum(Normalised(positions), n) == Ratio(Total(positions[..n]), Total(positions))
  {
    hide Product, Ratio;
    if n > 0 {
      SumPrefix(positions, n - 1);
      assert positions[..n][..n - 1] == positions[..n - 1];
      AddFractions(Total(positions[..n - 1]), positions[n - 1].weight, Total(positions));
    } else {
      ZeroRatio(Total(positions));
    }
  }

  /** With non-negative weights a date's growth lies between the smallest and the largest price
      relative of its assets, so the path starts at 1 and stays positive. */
  lemma GrowthIsAverage(held: seq<Row>, positions: seq<Position>, t: nat, lo: real, hi: real)
    requires ValidHeld(held, |positions|) && Total(positions) > 0.0 && t < |held|
    requires forall i :: 0 <= i < |positions| ==> positions[i].weight >= 0.0
    requires forall i :: 0 <= i < |positions| ==>
               lo <= Ratio(held[t].prices[i], held[Base(held, t)].prices[i]) <= hi
    ensures lo <= Growth(held, Normalised(positions), t) <= hi
  {
    hide Product, Part, Ratio;
    NormalisedSum(positions);
    NonNegativeWeights(positions);
    var weights, now, base := Normalised(positions), held[t].prices, held[Base(held, t)].prices;
    MixBetween(weights, now, base, lo, hi, |positions|);
    One(lo);
    One(hi);
  }

  lemma NonNegativeWeights(positions: seq<Position>)
    requires Total(positions) > 0.0
    requires forall i :: 0 <= i < |positions| ==> positions[i].weight >= 0.0
    ensures forall i :: 0 <= i < |positions| ==> Normalised(positions)[i] >= 0.0
  {
  }

  lemma StartsAtOne(held: seq<Row>, positions: seq<Position>)
    requires ValidHeld(held, |positions|) && Total(positions) > 0.0
    ensures Level(held, Normalised(positions), 0) == 1.0
  {
    NormalisedSum(positions);
    SelfMix(Normalised(positions), held[0].prices, |positions|);
  }

  lemma SelfMix(weights: seq<real>, prices: seq<Price>, n: nat)
    requires n <= |weights| == |prices|
    ensures Mix(weights, prices, prices, n) == Sum(weights, n)
  {
  }

  lemma {:induction false} PathPositive(held: seq<Row>, positions: seq<Position>, t: nat)
    requires ValidHeld(held, |positions|) && Total(positions) > 0.0 && t < |held|
    requires forall i :: 0 <= i < |positions| ==> positions[i].weight >= 0.0
    ensures Level(held, Normalised(positions), t) > 0.0
    decreases t
  {
    hide Product, Part, Ratio;
    var b := Base(held, t);
    var lo, hi := Bounds(held[t].prices, held[b].prices, |positions|);
    GrowthIsAverage(held, positions, t, lo, hi);
    if held[t].year != held[0].year {
      PathPositive(held, positions, b);
      PositiveProduct(Level(held, Normalised(positions), b), Growth(held, Normalised(positions), t));
    } else {
      PositiveProduct(1.0, Growth(held, Normalised(positions), t));
    }
  }

  lemma Bounds(now: seq<Price>, base: seq<Price>, n: nat) returns (lo: real, hi: real)
    requires n <= |now| == |base|
    ensures lo > 0.0 && forall i :: 0 <= i < n ==> lo <= Ratio(now[i], base[i]) <= hi
  {
    lo, hi := 1.0, 1.0;
    var k := 0;
    while k < n
      invariant 0 <= k <= n
      invariant lo > 0.0 && forall i :: 0 <= i < k ==> lo <= Ratio(now[i], base[i]) <= hi
    {
      var x := Ratio(now[k], base[k]);
      lo, hi := if x < lo then x else lo, if x > hi then x else hi;
      k := k + 1;
    }
  }
}
