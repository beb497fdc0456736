/** The largest size an execution budget can pay for, by bisection on one snapshot (ops/carry_capacity.py). */
module Capacity {
  import opened Reals
  import opened Options
  import opened OrderBook

  const STEPS: nat := 60
  const CEILING_SHARE: real := 0.999

  datatype Outcome =
    | FloorUnfillable
    | FloorOverBudget(costAtFloor: real)
    | NoDepthToWalk
    | BeyondVisibleDepth(notional: real, costAtWall: real)
    | Measured(notional: real, cost: real, wall: real)

  /** 2 to the n. */
  function Doubled(n: nat): (d: real)
    ensures d >= 1.0
  {
    if n == 0 then 1.0 else 2.0 * Doubled(n - 1)
  }

  lemma {:induction false} DoubledSum(m: nat, n: nat)
    ensures Doubled(m + n) == Product(Doubled(m), Doubled(n))
  {
    if n > 0 {
      DoubledSum(m, n - 1);
      assert Doubled(m) * (2.0 * Doubled(n - 1)) == 2.0 * (Doubled(m) * Doubled(n - 1));
    }
  }

  /** One search: the pair of books, the fee model, the budget and the venue minimum. */
  datatype Task = Task(pair: Pair, model: Model, budget: real, floor: real) {
    function Cost(notional: real): Option<real> {
      pair.RoundTrip(notional, model)
    }

    /** The cost is defined and strictly below the budget. */
    predicate Affordable(notional: real) {
      Cost(notional).Some? && Cost(notional).value < budget
    }

    /** The venue minimum fits the budget and the visible book goes deeper. */
    predicate Searchable() {
      Affordable(floor) && pair.Wall(floor).Some? && pair.Wall(floor).value > floor
    }

    function Ceiling(): real
      requires pair.Wall(floor).Some?
    {
      pair.Wall(floor).value * CEILING_SHARE
    }

    /** The width of the bracket the bisection ends with. */
    function Resolution(): real
      requires pair.Wall(floor).Some?
    {
      Ratio(Ceiling() - floor, Doubled(STEPS))
    }
  }

  /** The bisection takes sixty halvings. */
  lemma ResolutionIs(t: Task)
    requires t.pair.Wall(t.floor).Some?
    ensures t.Resolution() == (t.pair.Wall(t.floor).value * 0.999 - t.floor) / 1152921504606846976.0
  {
    DoubledSum(10, 10);
    DoubledSum(20, 20);
    DoubledSum(40, 20);
    assert Doubled(5) == 32.0 && Doubled(10) == 1024.0;
    ProductIs(1024.0, 1024.0);
    ProductIs(1048576.0, 1048576.0);
    ProductIs(1099511627776.0, 1048576.0);
  }

  /** In exact arithmetic the cost at the ceiling is always defined, on any two books. */
  lemma CeilingPriced(t: Task)
    requires t.Searchable()
    ensures t.floor > 0.0 && t.Cost(t.Ceiling()).Some?
  {
    PricedIff(t.pair, t.floor, t.model);
    PricedIff(t.pair, t.Ceiling(), t.model);
    WallFixed(t.pair, |LEGS|, t.floor, t.Ceiling());
  }

  /** On best-first books everything cheaper to fill is cheaper to pay for. */
  lemma AffordableBelow(t: Task, less: real, more: real)
    requires t.pair.Sorted() && 0.0 < less <= more && t.Affordable(more)
    ensures t.Affordable(less)
  {
    RoundTripMonotone(t.pair, less, more, t.model);
  }

  /** On best-first books, a size that is not affordable at the ceiling lies above the floor. */
  lemma BracketProper(t: Task)
    requires t.Searchable() && t.pair.Sorted() && !t.Affordable(t.Ceiling())
    ensures 0.0 < t.floor < t.Ceiling()
  {
    CeilingPriced(t);
    PricedIff(t.pair, t.Ceiling(), t.model);
    if t.Ceiling() <= t.floor {
      AffordableBelow(t, t.Ceiling(), t.floor);
    }
  }

  /** What a closed bracket proves about every size, on best-first books. */
  ghost predicate Crossing(t: Task, lo: real, hi: real) {
    && (forall n :: 0.0 < n <= lo ==> t.Affordable(n))
    && (forall n :: n >= hi ==> !t.Affordable(n))
  }

  lemma BracketCrossing(t: Task, lo: real, hi: real)
    requires t.pair.Sorted() && 0.0 < lo < hi && t.Affordable(lo) && !t.Affordable(hi)
    ensures Crossing(t, lo, hi)
  {
    forall n | 0.0 < n <= lo ensures t.Affordable(n) {
      AffordableBelow(t, n, lo);
    }
    forall n | n >= hi ensures !t.Affordable(n) {
      if t.Affordable(n) {
        AffordableBelow(t, hi, n);
      }
    }
  }

  lemma HalfStep(width: real, midpoint: real, lo: real, hi: real, d: real)
    requires width == hi - lo && midpoint == (lo + hi) / 2.0
    ensures Product(hi - midpoint, 2.0 * d) == Product(midpoint - lo, 2.0 * d) == Product(width, d)
  {
  }

  lemma FinalWidth(width: real, d: real, total: real)
    requires d > 0.0 && Product(width, d) == total
    ensures width == Ratio(total, d)
  {
  }

  /** The outcome names a size, and it is below the venue minimum. */
  predicate ReportsBelow(r: Outcome, floor: real) {
    (r.BeyondVisibleDepth? || r.Measured?) && r.notional < floor
  }

  /** The wall is less than 0.1% deeper than the venue minimum. */
  predicate WallBarelyDeeper(t: Task)
    requires t.Searchable()
  {
    t.pair.Wall(t.floor).value < t.floor / CEILING_SHARE
  }

  /** The bisection. The first group of promises holds of any two books; the last three need
      them sorted best price first. */
  method Search(t: Task) returns (r: Outcome)
    ensures r.FloorUnfillable? <==> t.Cost(t.floor).None?
    ensures r.FloorOverBudget? <==> t.Cost(t.floor).Some? && t.Cost(t.floor).value >= t.budget
    ensures r.FloorOverBudget? ==> t.Cost(t.floor) == Some(r.costAtFloor)
    ensures r.NoDepthToWalk? <==> t.Affordable(t.floor) && t.pair.Wall(t.floor) == Some(t.floor)
    ensures r.BeyondVisibleDepth? <==> t.Searchable() && t.Affordable(t.Ceiling())
    ensures r.BeyondVisibleDepth? ==> r.notional == t.Ceiling() && t.Cost(r.notional) == Some(r.costAtWall)
    ensures r.Measured? <==> t.Searchable() && !t.Affordable(t.Ceiling())
    ensures r.Measured? ==>
              && t.Cost(r.notional) == Some(r.cost) && r.cost < t.budget && t.pair.Wall(t.floor) == Some(r.wall)
              && !t.Affordable(r.notional + t.Resolution())
    ensures r.Measured? && t.pair.Sorted() ==>
              t.floor <= r.notional < t.Ceiling() && Crossing(t, r.notional, r.notional + t.Resolution())
    ensures r.BeyondVisibleDepth? && t.pair.Sorted() ==> forall n :: 0.0 < n <= r.notional ==> t.Affordable(n)
    ensures t.pair.Sorted() ==> (ReportsBelow(r, t.floor) <==> t.Searchable() && WallBarelyDeeper(t))
  {
    hide Product, Ratio, OrderBook.Pair.RoundTrip, OrderBook.Pair.Wall, OrderBook.Pair.Sorted;
    PricedIff(t.pair, t.floor, t.model);
    var floorCost := t.Cost(t.floor);
    if floorCost.None? {
      return FloorUnfillable;
    }
    if floorCost.value >= t.budget {
      return FloorOverBudget(floorCost.value);
    }
    var wall := t.pair.Wall(t.floor);
    if wall.None? || wall.value <= t.floor {
      return NoDepthToWalk;
    }
    var ceiling := wall.value * CEILING_SHARE;
    var ceilingCost := t.Cost(ceiling);
    if ceilingCost.Some? && ceilingCost.value < t.budget {
      forall n | t.pair.Sorted() && 0.0 < n <= ceiling ensures t.Affordable(n) {
        AffordableBelow(t, n, ceiling);
      }
      return Outcome.BeyondVisibleDepth(ceiling, ceilingCost.value);
    }
    var lo, hi := t.floor, ceiling;
    if t.pair.Sorted() {
      BracketProper(t);
    }
    One(hi - lo);
    for i := 0 to STEPS
      invariant t.Affordable(lo) && !t.Affordable(hi)
      invariant Product(hi - lo, Doubled(i)) == ceiling - t.floor
      invariant t.pair.Sorted() ==> t.floor <= lo < hi <= ceiling
    {
      var midpoint := (lo + hi) / 2.0;
      var cost := t.Cost(midpoint);
      HalfStep(hi - lo, midpoint, lo, hi, Doubled(i));
      if cost.None? || cost.value >= t.budget {
        hi := midpoint;
      } else {
        lo := midpoint;
      }
    }
    FinalWidth(hi - lo, Doubled(STEPS), ceiling - t.floor);
    if t.pair.Sorted() {
      BracketCrossing(t, lo, hi);
    }
    return Measured(lo, t.Cost(lo).value, wall.value);
  }

  /** Two one-level books five thousandths of a dollar deeper than a venue minimum of ten dollars. */
  const THIN: Task :=
    Task.Task(PairOf(OneLevel(1.0, 1.0, 10.005), OneLevel(1.0, 1.0, 10.005), 0.0, 0.0), Published, 1.0, 10.0)

  /** The search reports a size below the venue minimum for them. */
  method SearchThinBooks() returns (r: Outcome)
    ensures r == Outcome.BeyondVisibleDepth(9.994995, 0.0) && r.notional < THIN.floor
  {
    LevelCost(10.005, THIN.floor, 0.0, 0.0);
    LevelCost(10.005, 9.994995, 0.0, 0.0);
    r := Search(THIN);
  }
}
