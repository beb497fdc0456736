/** Walking an order book and pricing a four-leg round trip (ops/carry_capacity.py), over exact reals. */
module OrderBook {
  import opened Reals
  import opened Options

  const BPS: real := 10000.0
  const FLAT_TAKER_BPS: real := 7.0

  datatype Side = Buy | Sell

  /** A level as the venue sends it: not a pair at all, or two cells that may not parse to a finite number. */
  datatype RawLevel = Malformed | Pair(price: Option<real>, size: Option<real>)

  /** Anything the venue may return where a book is expected; an absent side is an empty one. */
  datatype Book = NotABook | Book(bids: seq<RawLevel>, asks: seq<RawLevel>)

  /** A usable level. */
  datatype Quote = Quote(price: real, size: Positive)

  // ----- cleaning -----

  predicate Usable(level: RawLevel) {
    level.Pair? && level.price.Some? && level.size.Some? && level.price.value > 0.0 && level.size.value > 0.0
  }

  function Clean(raw: seq<RawLevel>): (levels: seq<Quote>)
    ensures forall q :: q in levels ==> q.price > 0.0
    ensures |levels| <= |raw|
  {
    if raw == [] then []
    else
      var last := raw[|raw| - 1];
      Clean(raw[..|raw| - 1]) + if Usable(last) then [Quote(last.price.value, last.size.value)] else []
  }

  /** The side of the book a taker consumes: a buy lifts asks, a sell hits bids. */
  function Raw(book: Book, side: Side): seq<RawLevel> {
    if book.NotABook? then [] else if side.Buy? then book.asks else book.bids
  }

  function Levels(book: Book, side: Side): seq<Quote> {
    Clean(Raw(book, side))
  }

  /** The cleaning loop: junk levels are dropped, never defaulted. */
  method CleanLevels(book: Book, side: Side) returns (out: seq<Quote>)
    ensures out == Levels(book, side)
  {
    out := [];
    var raw := Raw(book, side);
    for i := 0 to |raw|
      invariant out == Clean(raw[..i])
    {
      assert raw[..i + 1][..i] == raw[..i];
      if Usable(raw[i]) {
        out := out + [Quote(raw[i].price.value, raw[i].size.value)];
      }
    }
    assert raw[..|raw|] == raw;
  }

  /** Two cells that both read as positive numbers. */
  ghost predicate Parses(level: RawLevel) {
    exists price, size :: level == Pair(Some(price), Some(size)) && price > 0.0 && size > 0.0
  }

  lemma UsableIff(level: RawLevel)
    ensures Usable(level) <==> Parses(level)
  {
    if Usable(level) {
      assert level == Pair(Some(level.price.value), Some(level.size.value));
    }
  }

  /** `kept` are the positions of exactly the usable levels, in order, and `levels` their prices and sizes. */
  ghost predicate KeptAt(raw: seq<RawLevel>, levels: seq<Quote>, kept: seq<nat>) {
    && |kept| == |levels|
    && (forall i :: 0 <= i < |kept| ==>
          && kept[i] < |raw| && Parses(raw[kept[i]])
          && levels[i] == Quote(raw[kept[i]].price.value, raw[kept[i]].size.value))
    && (forall k: nat :: k < |raw| && Parses(raw[k]) ==> k in kept)
    && (forall i, j :: 0 <= i < j < |kept| ==> kept[i] < kept[j])
  }

  /** Cleaning keeps exactly the usable levels, each with its own price and size, in the venue's order. */
  lemma {:induction false} KeepsUsableInOrder(raw: seq<RawLevel>) returns (kept: seq<nat>)
    ensures KeptAt(raw, Clean(raw), kept)
  {
    hide KeptAt;
    if raw == [] {
      kept := [];
      NoneKept();
      assert Clean(raw) == [];
      assert KeptAt(raw, Clean(raw), kept);
    } else {
      var n, last := |raw| - 1, raw[|raw| - 1];
      var before, levels := raw[..n], Clean(raw[..n]);
      var known := KeepsUsableInOrder(before);
      KeptOneMore(before, last, levels, known);
      assert raw == before + [last] && |before| == n;
      if Usable(last) {
        kept := known + [|before|];
        assert Clean(raw) == levels + [Quote(last.price.value, last.size.value)];
        assert KeptAt(raw, Clean(raw), kept);
      } else {
        kept := known;
        assert Clean(raw) == levels + [] == levels;
        assert KeptAt(raw, Clean(raw), kept);
      }
    }
  }

  lemma NoneKept()
    ensures KeptAt([], [], [])
  {
  }

  lemma KeptOneMore(raw: seq<RawLevel>, last: RawLevel, levels: seq<Quote>, kept: seq<nat>)
    requires KeptAt(raw, levels, kept)
    ensures if Usable(last) then KeptAt(raw + [last], levels + [Quote(last.price.value, last.size.value)], kept + [|raw|])
            else KeptAt(raw + [last], levels, kept)
  {
    hide Parses;
    var all := raw + [last];
    UsableIff(last);
    assert forall k :: 0 <= k < |raw| ==> all[k] == raw[k];
    if Usable(last) {
      var more := kept + [|raw|];
      assert forall k: nat :: k < |raw| && Parses(raw[k]) ==> k in kept && k in more;
      assert |raw| in more;
    }
  }

  // ----- what a walk costs -----

  function Depth(levels: seq<Quote>): (depth: real)
    ensures depth >= 0.0
  {
    if levels == [] then 0.0 else levels[0].size + Depth(levels[1..])
  }

  /** What the first `quantity` units cost, taken level by level from the front. */
  function Spent(levels: seq<Quote>, quantity: real): real {
    if levels == [] || quantity <= 0.0 then 0.0
    else
      var take := Min(quantity, levels[0].size);
      Product(take, levels[0].price) + Spent(levels[1..], quantity - take)
  }

  /** The average fill price of `quantity`, when the levels can supply it. */
  function Vwap(levels: seq<Quote>, quantity: real): Option<real> {
    if 0.0 < quantity <= Depth(levels) then Some(Ratio(Spent(levels, quantity), quantity)) else None
  }

  /** The walking loop. It succeeds exactly when the quantity is positive and the visible size covers it. */
  method Walk(levels: seq<Quote>, quantity: real) returns (fill: Option<(real, real)>)
    ensures fill.Some? <==> 0.0 < quantity <= Depth(levels)
    ensures fill.Some? ==> fill.value == (Vwap(levels, quantity).value, quantity)
  {
    hide Product, Ratio;
    if quantity <= 0.0 {
      return None;
    }
    var remaining, spent := quantity, 0.0;
    for i := 0 to |levels|
      invariant remaining > 0.0
      invariant spent + Spent(levels[i..], remaining) == Spent(levels, quantity)
      invariant quantity - remaining + Depth(levels[i..]) == Depth(levels)
    {
      assert levels[i..][1..] == levels[i + 1..];
      var take := Min(remaining, levels[i].size);
      spent := spent + Product(take, levels[i].price);
      remaining := remaining - take;
      if remaining <= 0.0 {
        return Some((Ratio(spent, quantity), quantity));
      }
    }
    return None;
  }

  ghost predicate Ascending(levels: seq<Quote>) {
    forall i, j :: 0 <= i < j < |levels| ==> levels[i].price <= levels[j].price
  }

  ghost predicate Descending(levels: seq<Quote>) {
    forall i, j :: 0 <= i < j < |levels| ==> levels[i].price >= levels[j].price
  }

  /** Every further unit costs at least the cheapest level. */
  lemma {:induction false} MarginalAtLeast(levels: seq<Quote>, floor: real, less: real, more: real)
    requires forall q :: q in levels ==> q.price >= floor
    requires 0.0 <= less <= more <= Depth(levels)
    ensures Spent(levels, more) - Spent(levels, less) >= Product(floor, more - less)
  {
    hide Product;
    if more <= 0.0 {
      Zero(floor);
    } else {
      var head, tail := levels[0], levels[1..];
      var t1, t2 := Min(less, head.size), Min(more, head.size);
      MarginalAtLeast(tail, floor, less - t1, more - t2);
      HeadMarginal(head.price, floor, t1, t2, more - t2 - (less - t1));
      if less <= 0.0 {
        Zero(head.price);
      }
    }
  }

  lemma HeadMarginal(price: real, floor: real, t1: real, t2: real, rest: real)
    requires price >= floor && t1 <= t2
    ensures Product(t2, price) - Product(t1, price) + Product(floor, rest) >= Product(floor, t2 - t1 + rest)
  {
    assert (price - floor) * (t2 - t1) >= 0.0;
  }

  /** Best price first, a larger quantity never has a smaller average cost (cross-multiplied). */
  lemma {:induction false} AverageGrows(levels: seq<Quote>, less: real, more: real)
    requires Ascending(levels) && 0.0 < less <= more <= Depth(levels)
    ensures Product(Spent(levels, less), more) <= Product(Spent(levels, more), less)
  {
    hide Product;
    var head, tail := levels[0], levels[1..];
    if more <= head.size {
      SameLevel(head.price, less, more);
      assert Spent(tail, 0.0) == 0.0;
    } else {
      var t1 := Min(less, head.size);
      MarginalAtLeast(tail, head.price, less - t1, more - head.size);
      if less <= head.size {
        FirstLevelOnly(head.price, head.size, less, more - head.size, Spent(tail, more - head.size));
      } else {
        AverageGrows(tail, less - head.size, more - head.size);
        BothBeyond(head.price, head.size, less - head.size, more - head.size,
                   Spent(tail, less - head.size), Spent(tail, more - head.size));
      }
    }
  }

  lemma SameLevel(price: real, less: real, more: real)
    ensures Product(Product(less, price), more) == Product(Product(more, price), less)
  {
    assert less * price * more == more * price * less;
  }

  lemma FirstLevelOnly(price: real, size: real, less: real, beyond: real, rest: real)
    requires 0.0 < less <= size && beyond > 0.0 && rest >= Product(price, beyond)
    ensures Product(Product(less, price), size + beyond) <= Product(Product(size, price) + rest, less)
  {
    var excess := rest - price * beyond;
    assert excess * less >= 0.0;
    assert (size * price + rest) * less == less * price * (size + beyond) + excess * less;
  }

  lemma BothBeyond(price: real, size: real, x1: real, x2: real, rest1: real, rest2: real)
    requires size > 0.0 && 0.0 < x1 <= x2
    requires rest2 - rest1 >= Product(price, x2 - x1)
    requires Product(rest1, x2) <= Product(rest2, x1)
    ensures Product(Product(size, price) + rest1, x2 + size) <= Product(Product(size, price) + rest2, x1 + size)
  {
    var excess := rest2 - rest1 - price * (x2 - x1);
    assert excess * size >= 0.0;
  }

  /** The ask VWAP never falls as the quantity grows. */
  lemma AskVwapMonotone(levels: seq<Quote>, less: real, more: real)
    requires Ascending(levels) && 0.0 < less <= more <= Depth(levels)
    ensures Vwap(levels, less).value <= Vwap(levels, more).value
  {
    AverageGrows(levels, less, more);
    CrossMultiply(Spent(levels, less), less, Spent(levels, more), more);
  }

  /** The size on offer at one price. */
  function SizeAt(levels: seq<Quote>, price: real): (size: real)
    ensures size >= 0.0
  {
    if levels == [] then 0.0
    else (if levels[0].price == price then levels[0].size else 0.0) + SizeAt(levels[1..], price)
  }

  /** What does not fit into the size on offer at the cheapest price costs more than that price. */
  lemma {:induction false} SpentAbove(levels: seq<Quote>, floor: real, quantity: real)
    requires forall q :: q in levels ==> q.price >= floor
    requires SizeAt(levels, floor) < quantity <= Depth(levels)
    ensures Spent(levels, quantity) > Product(floor, quantity)
  {
    hide Product;
    var head, tail := levels[0], levels[1..];
    var take := Min(quantity, head.size);
    if quantity <= head.size {
      assert Spent(tail, 0.0) == 0.0;
      DearerLevel(head.price, floor, quantity);
    } else if head.price == floor {
      SpentAbove(tail, floor, quantity - take);
      Distribute(floor, take, quantity - take);
      Swap(take, floor);
    } else {
      MarginalAtLeast(tail, floor, 0.0, quantity - take);
      DearerLevel(head.price, floor, take);
      Distribute(floor, take, quantity - take);
    }
  }

  lemma DearerLevel(price: real, floor: real, take: real)
    requires price > floor && take > 0.0
    ensures Product(take, price) > Product(floor, take)
  {
    assert (price - floor) * take > 0.0;
  }

  lemma Swap(a: real, b: real)
    ensures Product(a, b) == Product(b, a)
  {
  }

  /** Best price first, the average cost grows strictly once a quantity exceeds the size at the best price. */
  lemma {:induction false} AverageGrowsStrictly(levels: seq<Quote>, less: real, more: real)
    requires Ascending(levels) && 0.0 < less < more <= Depth(levels) && more > SizeAt(levels, levels[0].price)
    ensures Product(Spent(levels, less), more) < Product(Spent(levels, more), less)
  {
    hide Product;
    var head, tail := levels[0], levels[1..];
    if less <= head.size {
      SpentAbove(tail, head.price, more - head.size);
      assert Spent(tail, 0.0) == 0.0;
      FirstLevelStrictly(head.price, head.size, less, more - head.size, Spent(tail, more - head.size));
    } else {
      var x1, x2 := less - head.size, more - head.size;
      MarginalAtLeast(tail, tail[0].price, x1, x2);
      AverageGrows(tail, x1, x2);
      if tail[0].price == head.price {
        AverageGrowsStrictly(tail, x1, x2);
      } else {
        DearerLevel(tail[0].price, head.price, x2 - x1);
        Swap(x2 - x1, tail[0].price);
      }
      BothStrictly(head.price, head.size, x1, x2, Spent(tail, x1), Spent(tail, x2));
    }
  }

  lemma FirstLevelStrictly(price: real, size: real, less: real, beyond: real, rest: real)
    requires 0.0 < less <= size && beyond > 0.0 && rest > Product(price, beyond)
    ensures Product(Product(less, price), size + beyond) < Product(Product(size, price) + rest, less)
  {
    var excess := rest - price * beyond;
    assert excess * less > 0.0;
    assert (size * price + rest) * less == less * price * (size + beyond) + excess * less;
  }

  lemma BothStrictly(price: real, size: real, x1: real, x2: real, rest1: real, rest2: real)
    requires size > 0.0 && 0.0 < x1 < x2
    requires rest2 - rest1 >= Product(price, x2 - x1) && Product(rest1, x2) <= Product(rest2, x1)
    requires rest2 - rest1 > Product(price, x2 - x1) || Product(rest1, x2) < Product(rest2, x1)
    ensures Product(Product(size, price) + rest1, x2 + size) < Product(Product(size, price) + rest2, x1 + size)
  {
    var excess := rest2 - rest1 - price * (x2 - x1);
    if excess > 0.0 {
      assert excess * size > 0.0;
    } else {
      assert excess * size == 0.0;
    }
  }

  /** Up to the size at the best price every unit costs that price. */
  lemma {:induction false} SpentAtBest(levels: seq<Quote>, price: real, quantity: real)
    requires Ascending(levels) && (forall q :: q in levels ==> q.price >= price)
    requires 0.0 <= quantity <= SizeAt(levels, price)
    ensures Spent(levels, quantity) == Product(quantity, price)
  {
    hide Product;
    Zero(price);
    if levels != [] && quantity > 0.0 {
      var head, tail := levels[0], levels[1..];
      if head.price > price {
        NothingAt(tail, price);
      }
      var take := Min(quantity, head.size);
      SpentAtBest(tail, price, quantity - take);
      Distribute(price, take, quantity - take);
      Swap(take, price);
      Swap(quantity - take, price);
      Swap(quantity, price);
    }
  }

  lemma {:induction false} NothingAt(levels: seq<Quote>, price: real)
    requires forall q :: q in levels ==> q.price > price
    ensures SizeAt(levels, price) == 0.0
  {
    if levels != [] {
      NothingAt(levels[1..], price);
    }
  }

  /** The ask VWAP is level between two quantities exactly when the best price covers the larger one. */
  lemma AskVwapLevelIff(levels: seq<Quote>, less: real, more: real)
    requires Ascending(levels) && 0.0 < less < more <= Depth(levels)
    ensures Vwap(levels, less) == Vwap(levels, more) <==> more <= SizeAt(levels, levels[0].price)
  {
    hide Product, Ratio, Spent;
    var price := levels[0].price;
    if more <= SizeAt(levels, price) {
      SpentAtBest(levels, price, less);
      SpentAtBest(levels, price, more);
      RatioOfProduct(less, price);
      RatioOfProduct(more, price);
    } else {
      AverageGrowsStrictly(levels, less, more);
      CrossMultiply(Spent(levels, more), more, Spent(levels, less), less);
    }
  }

  lemma RatioOfProduct(quantity: real, price: real)
    requires quantity > 0.0
    ensures Ratio(Product(quantity, price), quantity) == price
  {
  }

  function Negated(levels: seq<Quote>): (negated: seq<Quote>)
    ensures |negated| == |levels|
  {
    seq(|levels|, i requires 0 <= i < |levels| => Quote(-levels[i].price, levels[i].size))
  }

  lemma {:induction false} NegatedWalk(levels: seq<Quote>, quantity: real)
    ensures Depth(Negated(levels)) == Depth(levels)
    ensures Spent(Negated(levels), quantity) == -Spent(levels, quantity)
    decreases |levels|
  {
    if levels != [] {
      assert Negated(levels)[1..] == Negated(levels[1..]);
      NegatedWalk(levels[1..], quantity - Min(quantity, levels[0].size));
    }
  }

  /** The bid VWAP never rises as the quantity grows: bids are asks with the sign turned. */
  lemma BidVwapMonotone(levels: seq<Quote>, less: real, more: real)
    requires Descending(levels) && 0.0 < less <= more <= Depth(levels)
    ensures Vwap(levels, less).value >= Vwap(levels, more).value
  {
    NegatedWalk(levels, less);
    NegatedWalk(levels, more);
    AskVwapMonotone(Negated(levels), less, more);
    NegatedRatio(Spent(levels, less), less);
    NegatedRatio(Spent(levels, more), more);
  }

  lemma {:induction false} NegatedSizes(levels: seq<Quote>, price: real)
    ensures SizeAt(Negated(levels), -price) == SizeAt(levels, price)
    decreases |levels|
  {
    if levels != [] {
      assert Negated(levels)[1..] == Negated(levels[1..]);
      NegatedSizes(levels[1..], price);
    }
  }

  lemma BidVwapLevelIff(levels: seq<Quote>, less: real, more: real)
    requires Descending(levels) && 0.0 < less < more <= Depth(levels)
    ensures Vwap(levels, less) == Vwap(levels, more) <==> more <= SizeAt(levels, levels[0].price)
  {
    hide Product, Ratio, Spent, SizeAt;
    NegatedWalk(levels, less);
    NegatedWalk(levels, more);
    NegatedSizes(levels, levels[0].price);
    AskVwapLevelIff(Negated(levels), less, more);
    NegatedRatio(Spent(levels, less), less);
    NegatedRatio(Spent(levels, more), more);
  }

  lemma NegatedRatio(a: real, d: real)
    requires d > 0.0
    ensures Ratio(-a, d) == -Ratio(a, d)
  {
  }

  /** The ask VWAP is never below the best ask, the bid VWAP never above the best bid. */
  lemma VwapNoBetterThanTouch(levels: seq<Quote>, quantity: real)
    requires 0.0 < quantity <= Depth(levels)
    ensures Ascending(levels) ==> Vwap(levels, quantity).value >= levels[0].price
    ensures Descending(levels) ==> Vwap(levels, quantity).value <= levels[0].price
  {
    hide Product, Ratio, Spent;
    SpentNothing(levels);
    if Ascending(levels) {
      MarginalAtLeast(levels, levels[0].price, 0.0, quantity);
      RatioAtLeast(Spent(levels, quantity), quantity, levels[0].price);
    }
    if Descending(levels) {
      NegatedWalk(levels, quantity);
      MarginalAtLeast(Negated(levels), -levels[0].price, 0.0, quantity);
      RatioAtLeast(-Spent(levels, quantity), quantity, -levels[0].price);
      NegatedRatio(Spent(levels, quantity), quantity);
    }
  }

  lemma SpentNothing(levels: seq<Quote>)
    ensures Spent(levels, 0.0) == 0.0 && Spent(Negated(levels), 0.0) == 0.0
  {
  }

  lemma RatioAtLeast(a: real, d: real, x: real)
    requires d > 0.0 && a >= Product(x, d)
    ensures Ratio(a, d) >= x
  {
    var q := a / d;
    assert a == q * d;
    if q < x {
      assert (x - q) * d > 0.0;
    }
  }

  // ----- one leg -----

  /** Best bid, best ask and mid, unless a side is empty or the book is crossed. */
  function Touch(book: Book): Option<(real, real, real)> {
    var bids, asks := Levels(book, Sell), Levels(book, Buy);
    if bids == [] || asks == [] || asks[0].price < bids[0].price then None
    else
      var mid := (bids[0].price + asks[0].price) / 2.0;
      if mid <= 0.0 then None else Some((bids[0].price, asks[0].price, mid))
  }

  datatype Leg =
    | NoTwoSidedMarket
    | Unfillable(mid: real, wall: real, visible: nat)
    | Filled(mid: real, bestBid: real, bestAsk: real, vwap: real, slippage: real, fee: real, cost: real,
             wall: real, visible: nat)

  function Slippage(side: Side, vwap: real, mid: Positive): real {
    Product(Ratio(if side.Buy? then vwap - mid else mid - vwap, mid), BPS)
  }

  function LegCost(book: Book, side: Side, notional: real, fee: real): Leg {
    match Touch(book)
    case None => NoTwoSidedMarket
    case Some((bid, ask, mid)) =>
      var levels := Levels(book, side);
      var wall := Product(Depth(levels), mid);
      match Vwap(levels, Ratio(notional, mid))
      case None => Unfillable(mid, wall, |levels|)
      case Some(vwap) =>
        var slippage := Slippage(side, vwap, mid);
        Filled(mid, bid, ask, vwap, slippage, fee, slippage + fee, wall, |levels|)
  }

  /** Both sides are sorted best price first. */
  ghost predicate BestFirst(book: Book) {
    Ascending(Levels(book, Buy)) && Descending(Levels(book, Sell))
  }

  /** A leg fills exactly up to its wall. */
  lemma {:induction false} LegFillsIff(book: Book, side: Side, notional: real, fee: real)
    ensures LegCost(book, side, notional, fee).Filled? <==>
            Touch(book).Some? && 0.0 < notional <= Product(Depth(Levels(book, side)), Touch(book).value.2)
  {
    if Touch(book).Some? {
      var mid := Touch(book).value.2;
      RatioPositive(notional, mid);
      RatioBelow(notional, mid, Depth(Levels(book, side)));
    }
  }

  /** On a best-first book a leg's slippage is never negative and never falls with size. */
  lemma LegCostMonotone(book: Book, side: Side, less: real, more: real, fee: real)
    requires BestFirst(book) && 0.0 < less <= more && LegCost(book, side, more, fee).Filled?
    ensures LegCost(book, side, less, fee).Filled?
    ensures 0.0 <= LegCost(book, side, less, fee).slippage <= LegCost(book, side, more, fee).slippage
  {
    hide Product, Ratio, Clean, Spent;
    LegFillsIff(book, side, less, fee);
    LegFillsIff(book, side, more, fee);
    var levels, mid := Levels(book, side), Touch(book).value.2;
    var q1, q2 := Ratio(less, mid), Ratio(more, mid);
    RatioMonotone(less, more, mid);
    VwapNoBetterThanTouch(levels, q1);
    if side.Buy? {
      AskVwapMonotone(levels, q1, q2);
    } else {
      BidVwapMonotone(levels, q1, q2);
    }
    SlippageMonotone(side, Vwap(levels, q1).value, Vwap(levels, q2).value, mid);
  }

  lemma SlippageMonotone(side: Side, v1: real, v2: real, mid: Positive)
    requires if side.Buy? then mid <= v1 <= v2 else mid >= v1 >= v2
    ensures 0.0 <= Slippage(side, v1, mid) <= Slippage(side, v2, mid)
  {
    var d1, d2 := if side.Buy? then v1 - mid else mid - v1, if side.Buy? then v2 - mid else mid - v2;
    RatioMonotone(d1, d2, mid);
    RatioPositive(d1, mid);
  }

  /** The size on offer at the best price of one side. */
  function BestSize(book: Book, side: Side): real {
    var levels := Levels(book, side);
    if levels == [] then 0.0 else SizeAt(levels, levels[0].price)
  }

  /** The size at the best price covers the whole notional. */
  predicate AtBest(book: Book, side: Side, notional: real) {
    Touch(book).Some? && Ratio(notional, Touch(book).value.2) <= BestSize(book, side)
  }

  /** On a best-first book a leg's slippage is level between two sizes exactly when the best price
      covers the larger one, and rises strictly otherwise. */
  lemma LegLevelIff(book: Book, side: Side, less: real, more: real, fee: real)
    requires BestFirst(book) && 0.0 < less < more && LegCost(book, side, more, fee).Filled?
    ensures LegCost(book, side, less, fee).Filled?
    ensures LegCost(book, side, less, fee).slippage == LegCost(book, side, more, fee).slippage <==>
            AtBest(book, side, more)
  {
    hide Product, Ratio, Clean, Spent, SizeAt;
    LegFillsIff(book, side, less, fee);
    LegFillsIff(book, side, more, fee);
    var levels, mid := Levels(book, side), Touch(book).value.2;
    var q1, q2 := Ratio(less, mid), Ratio(more, mid);
    RatioStrict(less, more, mid);
    if side.Buy? {
      AskVwapLevelIff(levels, q1, q2);
    } else {
      BidVwapLevelIff(levels, q1, q2);
    }
    SlippageEqual(side, Vwap(levels, q1).value, Vwap(levels, q2).value, mid);
  }

  lemma RatioStrict(a: real, b: real, d: real)
    requires d > 0.0 && 0.0 < a < b
    ensures 0.0 < Ratio(a, d) < Ratio(b, d)
  {
  }

  lemma SlippageEqual(side: Side, v1: real, v2: real, mid: Positive)
    ensures Slippage(side, v1, mid) == Slippage(side, v2, mid) <==> v1 == v2
  {
    var d1, d2 := if side.Buy? then v1 - mid else mid - v1, if side.Buy? then v2 - mid else mid - v2;
    if d1 < d2 {
      LessRatio(d1, d2, mid);
    } else if d2 < d1 {
      LessRatio(d2, d1, mid);
    }
  }

  lemma LessRatio(a: real, b: real, d: real)
    requires d > 0.0 && a < b
    ensures Ratio(a, d) < Ratio(b, d)
  {
  }

  // ----- the round trip -----

  datatype Model = Published | Flat

  /** The four legs in the order opened and closed: (uses the spot book, side). */
  const LEGS: seq<(bool, Side)> := [(true, Buy), (false, Sell), (true, Sell), (false, Buy)]

  datatype Pair = PairOf(spot: Book, perp: Book, spotFee: real, perpFee: real) {
    function LegAt(k: nat, notional: real): Leg
      requires k < |LEGS|
    {
      if LEGS[k].0 then LegCost(spot, LEGS[k].1, notional, spotFee) else LegCost(perp, LEGS[k].1, notional, perpFee)
    }

    ghost predicate Sorted() {
      BestFirst(spot) && BestFirst(perp)
    }

    /** Slippage of the first k legs. */
    function SlippageOf(k: nat, notional: real): real
      requires k <= |LEGS| && forall j :: 0 <= j < k ==> LegAt(j, notional).Filled?
    {
      if k == 0 then 0.0 else SlippageOf(k - 1, notional) + LegAt(k - 1, notional).slippage
    }

    function FeeOf(model: Model): real {
      if model.Published? then 2.0 * spotFee + 2.0 * perpFee else 4.0 * FLAT_TAKER_BPS
    }

    predicate AllFilled(notional: real) {
      forall k :: 0 <= k < |LEGS| ==> LegAt(k, notional).Filled?
    }

    /** The round-trip cost in bps, unless some leg cannot be priced. */
    function RoundTrip(notional: real, model: Model): Option<real> {
      if AllFilled(notional) then Some(SlippageOf(|LEGS|, notional) + FeeOf(model)) else None
    }

    /** The smallest wall among the first k legs that report one. */
    function WallOf(k: nat, notional: real): Option<real>
      requires k <= |LEGS|
    {
      if k == 0 then None
      else
        var leg, rest := LegAt(k - 1, notional), WallOf(k - 1, notional);
        if leg.NoTwoSidedMarket? then rest
        else if rest.None? then Some(leg.wall) else Some(Min(rest.value, leg.wall))
    }

    function Wall(notional: real): Option<real> {
      WallOf(|LEGS|, notional)
    }
  }

  /** Walls do not depend on the size asked for. */
  lemma {:induction false} WallFixed(p: Pair, k: nat, n: real, m: real)
    requires k <= |LEGS|
    ensures p.WallOf(k, n) == p.WallOf(k, m)
  {
    hide Product, Ratio, Clean, Spent, Depth, Touch, Slippage;
    if k > 0 {
      WallFixed(p, k - 1, n, m);
    }
  }

  lemma LegWall(book: Book, side: Side, notional: real, fee: real)
    ensures Touch(book).Some? ==>
              var leg := LegCost(book, side, notional, fee);
              !leg.NoTwoSidedMarket? && leg.wall == Product(Depth(Levels(book, side)), Touch(book).value.2)
  {
  }

  /** With both markets two-sided, the first k legs all fill exactly up to their common wall. */
  lemma {:induction false} FillsUpToWall(p: Pair, k: nat, notional: real)
    requires 1 <= k <= |LEGS| && Touch(p.spot).Some? && Touch(p.perp).Some?
    ensures p.WallOf(k, notional).Some?
    ensures (forall j :: 0 <= j < k ==> p.LegAt(j, notional).Filled?) <==>
            0.0 < notional <= p.WallOf(k, notional).value
  {
    hide Product, Ratio, Clean, Spent, Depth, Touch, Slippage;
    var leg := LEGS[k - 1];
    LegWall(if leg.0 then p.spot else p.perp, leg.1, notional, if leg.0 then p.spotFee else p.perpFee);
    LegFillsIff(if leg.0 then p.spot else p.perp, leg.1, notional, if leg.0 then p.spotFee else p.perpFee);
    if k > 1 {
      FillsUpToWall(p, k - 1, notional);
    }
  }

  /** The pair can be priced exactly when both markets are two-sided and the size is positive and
      within the wall; in particular fillability is downward closed. */
  lemma PricedIff(p: Pair, notional: real, model: Model)
    ensures p.RoundTrip(notional, model).Some? <==>
            && Touch(p.spot).Some? && Touch(p.perp).Some?
            && p.Wall(notional).Some? && 0.0 < notional <= p.Wall(notional).value
  {
    if Touch(p.spot).Some? && Touch(p.perp).Some? {
      FillsUpToWall(p, |LEGS|, notional);
    } else if Touch(p.spot).None? {
      assert p.LegAt(0, notional).NoTwoSidedMarket?;
    } else {
      assert p.LegAt(1, notional).NoTwoSidedMarket?;
    }
  }

  /** The gap between the average ask and the average bid paid for one size, in bps of the mid. */
  function EffectiveSpread(book: Book, notional: real): real
    requires LegCost(book, Buy, notional, 0.0).Filled? && LegCost(book, Sell, notional, 0.0).Filled?
  {
    var mid := Touch(book).value.2;
    var q := Ratio(notional, mid);
    Product(Ratio(Vwap(Levels(book, Buy), q).value - Vwap(Levels(book, Sell), q).value, mid), BPS)
  }

  /** The round trip crosses each book's effective spread exactly once and pays every fee: the mids cancel. */
  lemma RoundTripIsTwoSpreads(p: Pair, notional: real, model: Model)
    requires p.RoundTrip(notional, model).Some?
    ensures LegCost(p.spot, Buy, notional, 0.0).Filled? && LegCost(p.spot, Sell, notional, 0.0).Filled?
    ensures LegCost(p.perp, Buy, notional, 0.0).Filled? && LegCost(p.perp, Sell, notional, 0.0).Filled?
    ensures p.RoundTrip(notional, model).value
            == EffectiveSpread(p.spot, notional) + EffectiveSpread(p.perp, notional) + p.FeeOf(model)
  {
    hide Product, Ratio, Clean, Spent, Depth;
    assert p.LegAt(0, notional).Filled? && p.LegAt(1, notional).Filled?;
    assert p.LegAt(2, notional).Filled? && p.LegAt(3, notional).Filled?;
    SpreadCrossedOnce(p.spot, notional, p.spotFee);
    SpreadCrossedOnce(p.perp, notional, p.perpFee);
    assert p.SlippageOf(1, notional) == p.LegAt(0, notional).slippage;
    assert p.SlippageOf(2, notional) == p.SlippageOf(1, notional) + p.LegAt(1, notional).slippage;
    assert p.SlippageOf(3, notional) == p.SlippageOf(2, notional) + p.LegAt(2, notional).slippage;
  }

  lemma SpreadCrossedOnce(book: Book, notional: real, fee: real)
    requires LegCost(book, Buy, notional, fee).Filled? && LegCost(book, Sell, notional, fee).Filled?
    ensures LegCost(book, Buy, notional, 0.0).Filled? && LegCost(book, Sell, notional, 0.0).Filled?
    ensures LegCost(book, Buy, notional, fee).slippage + LegCost(book, Sell, notional, fee).slippage
            == EffectiveSpread(book, notional)
  {
    hide Product, Ratio, Clean, Spent, Depth;
    var mid := Touch(book).value.2;
    var q := Ratio(notional, mid);
    MidCancels(Vwap(Levels(book, Buy), q).value, Vwap(Levels(book, Sell), q).value, mid);
  }

  lemma MidCancels(ask: real, bid: real, mid: Positive)
    ensures Slippage(Buy, ask, mid) + Slippage(Sell, bid, mid) == Product(Ratio(ask - bid, mid), BPS)
  {
    AddFractions(ask - mid, mid - bid, mid);
  }

  /** On best-first books the four-leg cost never falls with size and is never below the fees. */
  lemma RoundTripMonotone(p: Pair, less: real, more: real, model: Model)
    requires p.Sorted() && 0.0 < less <= more && p.RoundTrip(more, model).Some?
    ensures p.RoundTrip(less, model).Some?
    ensures p.FeeOf(model) <= p.RoundTrip(less, model).value <= p.RoundTrip(more, model).value
  {
    hide LegCost;
    forall k: nat | k < |LEGS| ensures LegGrows(p, k, less, more) {
      assert p.LegAt(k, more).Filled?;
      LegCostMonotone(if LEGS[k].0 then p.spot else p.perp, LEGS[k].1, less, more,
                      if LEGS[k].0 then p.spotFee else p.perpFee);
    }
    SlippageGrows(p, |LEGS|, less, more);
  }

  ghost predicate LegGrows(p: Pair, k: nat, less: real, more: real)
    requires k < |LEGS|
  {
    p.LegAt(k, less).Filled? && p.LegAt(k, more).Filled?
    && 0.0 <= p.LegAt(k, less).slippage <= p.LegAt(k, more).slippage
  }

  lemma {:induction false} SlippageGrows(p: Pair, k: nat, less: real, more: real)
    requires k <= |LEGS| && forall j: nat :: j < k ==> LegGrows(p, j, less, more)
    ensures forall j :: 0 <= j < k ==> p.LegAt(j, less).Filled? && p.LegAt(j, more).Filled?
    ensures 0.0 <= p.SlippageOf(k, less) <= p.SlippageOf(k, more)
  {
    hide LegCost;
    forall j: nat | j < k ensures p.LegAt(j, less).Filled? && p.LegAt(j, more).Filled? {
      assert LegGrows(p, j, less, more);
    }
    if k > 0 {
      assert LegGrows(p, k - 1, less, more);
      SlippageGrows(p, k - 1, less, more);
    }
  }

  /** Every leg's best price covers the notional. */
  predicate AllAtBest(p: Pair, notional: real) {
    forall k :: 0 <= k < |LEGS| ==> AtBest(if LEGS[k].0 then p.spot else p.perp, LEGS[k].1, notional)
  }

  /** When the round trip costs the same at two sizes: exactly when on all four legs the size at the best
      price covers the larger one. Otherwise the cost rises strictly. */
  lemma RoundTripLevelIff(p: Pair, less: real, more: real, model: Model)
    requires p.Sorted() && 0.0 < less < more && p.RoundTrip(more, model).Some?
    ensures p.RoundTrip(less, model).Some?
    ensures p.RoundTrip(less, model) == p.RoundTrip(more, model) <==> AllAtBest(p, more)
  {
    hide LegCost, AtBest;
    RoundTripMonotone(p, less, more, model);
    forall k: nat | k < |LEGS|
      ensures LegGrows(p, k, less, more)
      ensures p.LegAt(k, less).slippage == p.LegAt(k, more).slippage <==>
              AtBest(if LEGS[k].0 then p.spot else p.perp, LEGS[k].1, more)
    {
      assert p.LegAt(k, more).Filled?;
      var book, fee := if LEGS[k].0 then p.spot else p.perp, if LEGS[k].0 then p.spotFee else p.perpFee;
      LegCostMonotone(book, LEGS[k].1, less, more, fee);
      LegLevelIff(book, LEGS[k].1, less, more, fee);
    }
    SlippageLevelIff(p, |LEGS|, less, more);
  }

  lemma {:induction false} SlippageLevelIff(p: Pair, k: nat, less: real, more: real)
    requires k <= |LEGS| && forall j: nat :: j < k ==> LegGrows(p, j, less, more)
    ensures forall j :: 0 <= j < k ==> p.LegAt(j, less).Filled? && p.LegAt(j, more).Filled?
    ensures p.SlippageOf(k, less) == p.SlippageOf(k, more) <==>
            forall j :: 0 <= j < k ==> p.LegAt(j, less).slippage == p.LegAt(j, more).slippage
  {
    hide LegCost;
    SlippageGrows(p, k, less, more);
    if k > 0 {
      assert LegGrows(p, k - 1, less, more);
      SlippageGrows(p, k - 1, less, more);
      SlippageLevelIff(p, k - 1, less, more);
    }
  }

  /** Every leg pays its own fee: the published round trip is the sum of the four legs' costs, the flat one
      the sum of their slippages and 28 bps. */
  lemma {:induction false} RoundTripIsLegs(p: Pair, notional: real)
    requires p.AllFilled(notional)
    ensures p.RoundTrip(notional, Published)
            == Some(p.LegAt(0, notional).cost + p.LegAt(1, notional).cost
                    + p.LegAt(2, notional).cost + p.LegAt(3, notional).cost)
    ensures p.RoundTrip(notional, Flat)
            == Some(p.LegAt(0, notional).slippage + p.LegAt(1, notional).slippage
                    + p.LegAt(2, notional).slippage + p.LegAt(3, notional).slippage + 28.0)
  {
    hide Slippage, Touch, Vwap;
    assert p.SlippageOf(1, notional) == p.LegAt(0, notional).slippage;
    assert p.SlippageOf(2, notional) == p.SlippageOf(1, notional) + p.LegAt(1, notional).slippage;
    assert p.SlippageOf(3, notional) == p.SlippageOf(2, notional) + p.LegAt(2, notional).slippage;
  }

  // ----- books with one level a side -----

  function OneLevel(bid: Positive, ask: Positive, size: Positive): Book {
    Book([RawLevel.Pair(Some(bid), Some(size))], [RawLevel.Pair(Some(ask), Some(size))])
  }

  function Mid(bid: Positive, ask: Positive): (mid: Positive) {
    (bid + ask) / 2.0
  }

  lemma OneLevelSides(bid: Positive, ask: Positive, size: Positive)
    ensures var book := OneLevel(bid, ask, size);
            Levels(book, Buy) == [Quote(ask, size)] && Levels(book, Sell) == [Quote(bid, size)]
  {
    var asks, bids := [RawLevel.Pair(Some(ask), Some(size))], [RawLevel.Pair(Some(bid), Some(size))];
    assert asks[..0] == [] && bids[..0] == [];
    assert Clean(asks) == Clean([]) + [Quote(ask, size)];
    assert Clean(bids) == Clean([]) + [Quote(bid, size)];
  }

  /** The market is two-sided exactly when the book is not crossed. */
  lemma {:induction false} OneLevelTouch(bid: Positive, ask: Positive, size: Positive)
    ensures BestFirst(OneLevel(bid, ask, size))
    ensures Touch(OneLevel(bid, ask, size)) == if ask < bid then None else Some((bid, ask, Mid(bid, ask)))
  {
    OneLevelSides(bid, ask, size);
  }

  lemma OneLevelWalk(price: Positive, size: Positive, quantity: real)
    requires 0.0 < quantity <= size
    ensures Depth([Quote(price, size)]) == size && Vwap([Quote(price, size)], quantity) == Some(price)
  {
    hide Product, Ratio;
    var levels := [Quote(price, size)];
    assert levels[1..] == [];
    assert Depth(levels) == size + Depth([]);
    assert Spent(levels, quantity) == Product(quantity, price) + Spent([], 0.0);
    RatioOfProduct(quantity, price);
  }

  /** A leg on such a book: a buy pays the ask, a sell gets the bid, and either loses half the spread. */
  lemma OneLevelLeg(bid: Positive, ask: Positive, size: Positive, side: Side, notional: real, fee: real)
    requires bid <= ask && 0.0 < notional <= size * Mid(bid, ask)
    ensures var leg := LegCost(OneLevel(bid, ask, size), side, notional, fee);
            && leg.Filled? && leg.mid == Mid(bid, ask) && leg.bestBid == bid && leg.bestAsk == ask
            && leg.vwap == (if side.Buy? then ask else bid)
            && leg.slippage == (ask - bid) / 2.0 / Mid(bid, ask) * 10000.0
            && leg.fee == fee && leg.cost == leg.slippage + fee
            && leg.wall == size * Mid(bid, ask) && leg.visible == 1
  {
    var book, mid := OneLevel(bid, ask, size), Mid(bid, ask);
    OneLevelSides(bid, ask, size);
    OneLevelTouch(bid, ask, size);
    ProductIs(size, mid);
    HalfSpread(bid, ask, side);
    RatioPositive(notional, mid);
    RatioBelow(notional, mid, size);
    hide Product, Ratio, Levels, OneLevel, Slippage, Mid;
    OneLevelWalk(if side.Buy? then ask else bid, size, Ratio(notional, mid));
  }

  lemma ProductIs(a: real, b: real)
    ensures Product(a, b) == a * b
  {
  }

  lemma HalfSpread(bid: Positive, ask: Positive, side: Side)
    ensures Slippage(side, if side.Buy? then ask else bid, Mid(bid, ask)) == (ask - bid) / 2.0 / Mid(bid, ask) * 10000.0
  {
    assert ask - Mid(bid, ask) == (ask - bid) / 2.0 == Mid(bid, ask) - bid;
  }

  /** What a round trip costs in the books' own prices: each market's spread over its mid, in bps, once, and
      every fee twice; it can be priced up to the smaller of the two sizes at mid. */
  lemma OneLevelRoundTrip(b1: Positive, a1: Positive, s1: Positive, b2: Positive, a2: Positive, s2: Positive,
                          spotFee: real, perpFee: real, notional: real)
    requires b1 <= a1 && b2 <= a2 && 0.0 < notional <= s1 * Mid(b1, a1) && notional <= s2 * Mid(b2, a2)
    ensures var p := PairOf(OneLevel(b1, a1, s1), OneLevel(b2, a2, s2), spotFee, perpFee);
            var spreads := (a1 - b1) / ((a1 + b1) / 2.0) * 10000.0 + (a2 - b2) / ((a2 + b2) / 2.0) * 10000.0;
            && p.Sorted()
            && p.RoundTrip(notional, Published) == Some(spreads + 2.0 * spotFee + 2.0 * perpFee)
            && p.RoundTrip(notional, Flat) == Some(spreads + 28.0)
            && p.Wall(notional) == Some(Min(s1 * Mid(b1, a1), s2 * Mid(b2, a2)))
  {
    var p := PairOf(OneLevel(b1, a1, s1), OneLevel(b2, a2, s2), spotFee, perpFee);
    OneLevelTouch(b1, a1, s1);
    OneLevelTouch(b2, a2, s2);
    Halves(b1, a1);
    Halves(b2, a2);
    var half1, half2 := (a1 - b1) / 2.0 / Mid(b1, a1) * 10000.0, (a2 - b2) / 2.0 / Mid(b2, a2) * 10000.0;
    var wall1, wall2 := s1 * Mid(b1, a1), s2 * Mid(b2, a2);
    forall k: nat | k < |LEGS|
      ensures var leg := p.LegAt(k, notional);
              && leg.Filled? && leg.slippage == (if LEGS[k].0 then half1 else half2)
              && leg.cost == leg.slippage + (if LEGS[k].0 then spotFee else perpFee)
              && leg.wall == if LEGS[k].0 then wall1 else wall2
    {
      if LEGS[k].0 {
        OneLevelLeg(b1, a1, s1, LEGS[k].1, notional, spotFee);
      } else {
        OneLevelLeg(b2, a2, s2, LEGS[k].1, notional, perpFee);
      }
    }
    hide LegCost, OneLevel, Mid;
    RoundTripIsLegs(p, notional);
    assert p.WallOf(1, notional) == Some(wall1);
    assert p.WallOf(2, notional) == Some(Min(wall1, wall2));
    assert p.WallOf(3, notional) == Some(Min(wall1, wall2));
  }

  lemma Halves(bid: Positive, ask: Positive)
    ensures 2.0 * ((ask - bid) / 2.0 / Mid(bid, ask) * 10000.0) == (ask - bid) / ((ask + bid) / 2.0) * 10000.0
  {
  }

  lemma NoSpread(size: real)
    ensures Mid(1.0, 1.0) == 1.0 && size * Mid(1.0, 1.0) == size
    ensures (1.0 - 1.0) / ((1.0 + 1.0) / 2.0) * 10000.0 == 0.0
  {
  }

  /** With bid and ask at one price the round trip costs its fees at every size up to the wall: the cost need
      not rise with the size. */
  lemma LevelCost(size: Positive, notional: real, spotFee: real, perpFee: real)
    requires 0.0 < notional <= size
    ensures var book := OneLevel(1.0, 1.0, size);
            var p := PairOf(book, book, spotFee, perpFee);
            && p.Sorted() && p.Wall(notional) == Some(size)
            && p.RoundTrip(notional, Published) == Some(2.0 * spotFee + 2.0 * perpFee)
            && p.RoundTrip(notional, Flat) == Some(28.0)
  {
    NoSpread(size);
    hide Mid;
    OneLevelRoundTrip(1.0, 1.0, size, 1.0, 1.0, size, spotFee, perpFee, notional);
  }
}
