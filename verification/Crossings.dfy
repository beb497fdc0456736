/** Crossing conditions over source series (src/omni/alerts/rules.py): where they fire, and why
    re-evaluating after every arrival fires what one evaluation of the whole history would. */
module Crossings {
  import opened Clock
  import opened Options
  import opened Claims

  /** A validated sequence condition: a level, or a percent change over a window of at least a day. */
  datatype Condition =
    | Level(above: bool, threshold: real, field: string)
    | Change(up: bool, pct: real, window: int, field: string)

  predicate WellFormed(condition: Condition) {
    condition.Change? ==> condition.pct > 0.0 && condition.window >= DAY
  }

  /** The number a claim carries in a field. */
  function ClaimNumber(c: Claim, field: string): Option<real> {
    if c.value.Object? && field in c.value.fields && c.value.fields[field].Number?
    then Some(c.value.fields[field].n) else None
  }

  function Numeric(claims: seq<Claim>, field: string): seq<Claim> {
    if claims == [] then []
    else
      var n := |claims| - 1;
      if ClaimNumber(claims[n], field).Some? then Numeric(claims[..n], field) + [claims[n]] else Numeric(claims[..n], field)
  }

  /** Where a date would be inserted after its equals in an ascending list of dates. */
  function BisectRight(ordered: seq<Claim>, date: int): (index: nat)
    ensures index <= |ordered|
  {
    if ordered == [] then 0
    else
      var n := |ordered| - 1;
      if ordered[n].knowledgeDate <= date then |ordered| else BisectRight(ordered[..n], date)
  }

  /** Whether a claim moved enough against another. */
  predicate MovedFrom(condition: Condition, base: Claim, c: Claim)
    requires condition.Change?
  {
    var v, b := ClaimNumber(c, condition.field), ClaimNumber(base, condition.field);
    v.Some? && b.Some? && b.value != 0.0
    && var change := (v.value - b.value) / b.value;
       if condition.up then change >= condition.pct / 100.0 else change <= -condition.pct / 100.0
  }

  /** Whether a claim moved enough against the newest numeric claim at least the window older. */
  predicate ChangeHolds(condition: Condition, ordered: seq<Claim>, c: Claim)
    requires condition.Change?
  {
    var index := BisectRight(ordered, c.knowledgeDate - condition.window);
    index > 0 && MovedFrom(condition, ordered[index - 1], c)
  }

  /** The per-claim predicate of a condition over one source's claims. */
  function Holds(condition: Condition, claims: seq<Claim>): Claim -> bool {
    match condition
    case Level(above, threshold, field) =>
      (c: Claim) =>
        var v := ClaimNumber(c, field);
        v.Some? && if above then v.value > threshold else v.value < threshold
    case Change(_, _, _, field) =>
      var ordered := Ordered(Numeric(claims, field));
      (c: Claim) => ChangeHolds(condition, ordered, c)
  }

  // ----- crossings -----

  /** The claims that hold right after one that does not, or at the very start. */
  function Starts(series: seq<Claim>, holds: Claim -> bool): seq<Claim> {
    if series == [] then []
    else
      var n := |series| - 1;
      if holds(series[n]) && (n == 0 || !holds(series[n - 1]))
      then Starts(series[..n], holds) + [series[n]] else Starts(series[..n], holds)
  }

  /** The crossing loop. */
  method FindCrossings(claims: seq<Claim>, holds: Claim -> bool) returns (out: seq<Claim>)
    ensures out == Starts(Ordered(claims), holds)
  {
    var ordered := Ordered(claims);
    out := [];
    var prevHolds := false;
    for i := 0 to |ordered|
      invariant out == Starts(ordered[..i], holds)
      invariant prevHolds == (i > 0 && holds(ordered[i - 1]))
    {
      assert ordered[..i + 1][..i] == ordered[..i];
      var nowHolds := holds(ordered[i]);
      if nowHolds && !prevHolds {
        out := out + [ordered[i]];
      }
      prevHolds := nowHolds;
    }
    assert ordered[..|ordered|] == ordered;
  }

  /** A stretch of holding claims that cannot be extended on either side. */
  ghost predicate MaximalRun(series: seq<Claim>, holds: Claim -> bool, i: nat, j: nat) {
    && i < j <= |series|
    && (forall k :: i <= k < j ==> holds(series[k]))
    && (i == 0 || !holds(series[i - 1]))
    && (j == |series| || !holds(series[j]))
  }

  lemma RunFrom(series: seq<Claim>, holds: Claim -> bool, i: nat) returns (j: nat)
    requires i < |series| && holds(series[i]) && (i == 0 || !holds(series[i - 1]))
    ensures MaximalRun(series, holds, i, j)
  {
    j := i + 1;
    while j < |series| && holds(series[j])
      invariant i < j <= |series| && forall k :: i <= k < j ==> holds(series[k])
    {
      j := j + 1;
    }
  }

  lemma {:induction false} StartsAt(series: seq<Claim>, holds: Claim -> bool, c: Claim)
    ensures c in Starts(series, holds) <==>
            exists i :: 0 <= i < |series| && series[i] == c && holds(c) && (i == 0 || !holds(series[i - 1]))
  {
    if series != [] {
      var n := |series| - 1;
      StartsAt(series[..n], holds, c);
      if c in Starts(series[..n], holds) {
        var i :| 0 <= i < n && series[..n][i] == c && holds(c) && (i == 0 || !holds(series[..n][i - 1]));
        assert series[i] == c;
      }
      if i :| 0 <= i < |series| && series[i] == c && holds(c) && (i == 0 || !holds(series[i - 1])) {
        if i < n {
          assert series[..n][i] == c;
        }
      }
    }
  }

  /** What fires in a series is exactly the first claims of its maximal holding runs. */
  lemma StartsAreMaximalRunStarts(series: seq<Claim>, holds: Claim -> bool, c: Claim)
    ensures c in Starts(series, holds) <==> exists i: nat, j: nat :: MaximalRun(series, holds, i, j) && series[i] == c
  {
    StartsAt(series, holds, c);
    if c in Starts(series, holds) {
      var i: nat :| i < |series| && series[i] == c && holds(c) && (i == 0 || !holds(series[i - 1]));
      var j := RunFrom(series, holds, i);
    }
    if i: nat, j: nat :| MaximalRun(series, holds, i, j) && series[i] == c {
      assert holds(series[i]);
    }
  }

  // ----- one evaluation over all sources -----

  function Series(claims: seq<Claim>, source: string): seq<Claim> {
    if claims == [] then []
    else
      var n := |claims| - 1;
      if claims[n].source == source then Series(claims[..n], source) + [claims[n]] else Series(claims[..n], source)
  }

  /** Sources in order of first appearance. */
  function Sources(claims: seq<Claim>): seq<string> {
    if claims == [] then []
    else
      var n := |claims| - 1;
      var before := Sources(claims[..n]);
      if claims[n].source in before then before else before + [claims[n].source]
  }

  /** What one source's series fires. */
  function Crossed(condition: Condition, series: seq<Claim>): seq<Claim> {
    Starts(Ordered(series), Holds(condition, series))
  }

  lemma CrossedIs(condition: Condition, series: seq<Claim>)
    ensures Crossed(condition, series) == Starts(Ordered(series), Holds(condition, series))
  {
  }

  function CrossedOf(condition: Condition, claims: seq<Claim>, sources: seq<string>): seq<Claim> {
    if sources == [] then []
    else
      var n := |sources| - 1;
      CrossedOf(condition, claims, sources[..n]) + Crossed(condition, Series(claims, sources[n]))
  }

  /** The grouping dictionary, with its keys in insertion order. */
  ghost predicate Groups(claims: seq<Claim>, series: map<string, seq<Claim>>, order: seq<string>) {
    && order == Sources(claims)
    && (forall s :: s in series <==> s in order)
    && (forall s :: Series(claims, s) == if s in series then series[s] else [])
  }

  lemma GroupsStart()
    ensures Groups([], map[], [])
  {
  }

  lemma GroupsAreSeries(claims: seq<Claim>, series: map<string, seq<Claim>>, order: seq<string>)
    requires Groups(claims, series, order)
    ensures order == Sources(claims)
    ensures forall i :: 0 <= i < |order| ==> order[i] in series && series[order[i]] == Series(claims, order[i])
  {
    forall i | 0 <= i < |order| ensures order[i] in series && series[order[i]] == Series(claims, order[i]) {
      assert order[i] in order;
    }
  }

  lemma GroupOneMore(claims: seq<Claim>, i: nat, series: map<string, seq<Claim>>, order: seq<string>)
    requires i < |claims| && Groups(claims[..i], series, order)
    ensures var source := claims[i].source;
            Groups(claims[..i + 1],
                   series[source := (if source in series then series[source] else []) + [claims[i]]],
                   if source in series then order else order + [source])
  {
    assert claims[..i + 1][..i] == claims[..i];
  }

  /** The per-source evaluation: claims are grouped by source, and each series fires on its own. */
  method Satisfying(condition: Condition, claims: seq<Claim>) returns (out: seq<Claim>)
    ensures out == CrossedOf(condition, claims, Sources(claims))
  {
    hide Starts, Holds, Ordered, Crossed, Groups, Sources, Series;
    GroupsStart();
    var series: map<string, seq<Claim>>, order: seq<string> := map[], [];
    for i := 0 to |claims|
      invariant Groups(claims[..i], series, order)
    {
      GroupOneMore(claims, i, series, order);
      var source := claims[i].source;
      if source !in series {
        order := order + [source];
      }
      series := series[source := (if source in series then series[source] else []) + [claims[i]]];
    }
    assert claims[..|claims|] == claims;
    GroupsAreSeries(claims, series, order);
    out := [];
    for i := 0 to |order|
      invariant out == CrossedOf(condition, claims, order[..i])
    {
      assert order[..i + 1][..i] == order[..i];
      var crossed := FindCrossings(series[order[i]], Holds(condition, series[order[i]]));
      CrossedIs(condition, series[order[i]]);
      out := out + crossed;
    }
    assert order[..|order|] == order;
  }

  // ----- a source's firings depend on its own claims only -----

  lemma {:induction false} SeriesMembers(claims: seq<Claim>, source: string)
    ensures forall c :: c in Series(claims, source) <==> c in claims && c.source == source
    ensures forall c :: multiset(Series(claims, source))[c] == if c.source == source then multiset(claims)[c] else 0
  {
    if claims != [] {
      var n := |claims| - 1;
      assert claims == claims[..n] + [claims[n]];
      SeriesMembers(claims[..n], source);
    }
  }

  lemma {:induction false} SourcesMembers(claims: seq<Claim>)
    ensures forall s :: s in Sources(claims) <==> exists c :: c in claims && c.source == s
  {
    if claims != [] {
      var n := |claims| - 1;
      assert claims == claims[..n] + [claims[n]];
      SourcesMembers(claims[..n]);
      assert claims[n] in claims;
    }
  }

  lemma {:induction false} StartsFromSeries(series: seq<Claim>, holds: Claim -> bool)
    ensures forall c :: c in Starts(series, holds) ==> c in series
  {
    if series != [] {
      StartsFromSeries(series[..|series| - 1], holds);
    }
  }

  lemma CrossedFromSeries(condition: Condition, series: seq<Claim>)
    ensures forall c :: c in Crossed(condition, series) ==> c in series
  {
    StartsFromSeries(Ordered(series), Holds(condition, series));
    forall c | c in Crossed(condition, series) ensures c in series {
      assert c in multiset(Ordered(series));
    }
  }

  lemma {:induction false} InCrossedOf(condition: Condition, claims: seq<Claim>, sources: seq<string>, c: Claim)
    ensures c in CrossedOf(condition, claims, sources) <==>
            c.source in sources && c in Crossed(condition, Series(claims, c.source))
  {
    hide Crossed;
    if sources != [] {
      var n := |sources| - 1;
      assert sources == sources[..n] + [sources[n]];
      InCrossedOf(condition, claims, sources[..n], c);
      SeriesMembers(claims, sources[n]);
      CrossedFromSeries(condition, Series(claims, sources[n]));
    }
  }

  /** A claim fires exactly when its own source's series fires it. */
  lemma {:induction false} FiresBySource(condition: Condition, claims: seq<Claim>, c: Claim)
    ensures c in CrossedOf(condition, claims, Sources(claims)) <==> c in Crossed(condition, Series(claims, c.source))
  {
    hide Crossed;
    InCrossedOf(condition, claims, Sources(claims), c);
    SourcesMembers(claims);
    SeriesMembers(claims, c.source);
    CrossedFromSeries(condition, Series(claims, c.source));
  }

  // ----- streaming -----

  /** Claims reached the store in this order; each source's in increasing (knowledge_date, id) order. */
  ghost predicate InOrderArrivals(arrivals: seq<Claim>) {
    DistinctIds(multiset(arrivals)) && AscendPerSource(arrivals)
  }

  ghost predicate AscendPerSource(arrivals: seq<Claim>) {
    forall i, j :: 0 <= i < j < |arrivals| && arrivals[i].source == arrivals[j].source ==>
      Before(arrivals[i], arrivals[j])
  }

  lemma {:induction false} SeriesAscends(arrivals: seq<Claim>, n: nat, source: string)
    requires AscendPerSource(arrivals) && n <= |arrivals|
    ensures Ascending(Series(arrivals[..n], source))
  {
    if n > 0 {
      SeriesAscends(arrivals, n - 1, source);
      assert arrivals[..n][..n - 1] == arrivals[..n - 1];
      if arrivals[n - 1].source == source {
        SeriesBefore(arrivals, n - 1, source);
      }
    }
  }

  lemma SeriesBefore(arrivals: seq<Claim>, n: nat, source: string)
    requires AscendPerSource(arrivals) && n < |arrivals| && arrivals[n].source == source
    ensures forall c :: c in Series(arrivals[..n], source) ==> Before(c, arrivals[n])
  {
    hide Before;
    var front, mine := arrivals[..n], Series(arrivals[..n], source);
    SeriesMembers(front, source);
    forall c | c in mine ensures Before(c, arrivals[n]) {
      var i :| 0 <= i < n && front[i] == c;
      assert arrivals[i] == c;
    }
  }

  lemma {:induction false} NumericAscends(series: seq<Claim>, field: string)
    requires Ascending(series)
    ensures Ascending(Numeric(series, field))
    ensures forall c :: c in Numeric(series, field) ==> c in series
  {
    if series != [] {
      var n := |series| - 1;
      NumericAscends(series[..n], field);
      forall c | c in Numeric(series[..n], field) ensures Before(c, series[n]) {
        var i :| 0 <= i < n && series[..n][i] == c;
      }
    }
  }

  lemma {:induction false} NumericMembers(claims: seq<Claim>, field: string)
    ensures forall c :: multiset(Numeric(claims, field))[c] ==
                        if ClaimNumber(c, field).Some? then multiset(claims)[c] else 0
  {
    if claims != [] {
      var n := |claims| - 1;
      assert claims == claims[..n] + [claims[n]];
      NumericMembers(claims[..n], field);
    }
  }

  ghost predicate SubBag(a: multiset<Claim>, b: multiset<Claim>) {
    forall c :: a[c] <= b[c]
  }

  lemma SubBagDistinct(a: multiset<Claim>, b: multiset<Claim>)
    requires SubBag(a, b) && DistinctIds(b)
    ensures DistinctIds(a)
  {
    forall c | c in a ensures a[c] == 1 && c in b {
      assert a[c] <= b[c];
    }
  }

  lemma {:induction false} SameSeries(arrivals: seq<Claim>, n: nat, view: seq<Claim>, source: string)
    requires InOrderArrivals(arrivals) && n <= |arrivals| && multiset(view) == multiset(arrivals[..n])
    ensures var mine, theirs := Series(arrivals[..n], source), Series(view, source);
            && Ascending(mine) && multiset(mine) == multiset(theirs) && DistinctIds(multiset(mine))
            && Ordered(theirs) == Ordered(mine) == mine
  {
    assert AscendPerSource(arrivals);
    hide InOrderArrivals;
    var mine, theirs := Series(arrivals[..n], source), Series(view, source);
    SeriesAscends(arrivals, n, source);
    SeriesMembers(arrivals[..n], source);
    SeriesMembers(view, source);
    assert multiset(mine) == multiset(theirs);
    SnapshotDistinct(arrivals, n);
    assert SubBag(multiset(mine), multiset(arrivals[..n]));
    SubBagDistinct(multiset(mine), multiset(arrivals[..n]));
    OrderedIs(theirs, mine);
    OrderedIs(mine, mine);
  }

  lemma {:induction false} SameNumeric(mine: seq<Claim>, theirs: seq<Claim>, field: string)
    requires Ascending(mine) && multiset(mine) == multiset(theirs) && DistinctIds(multiset(mine))
    ensures Ordered(Numeric(theirs, field)) == Ordered(Numeric(mine, field)) == Numeric(mine, field)
  {
    NumericAscends(mine, field);
    NumericMembers(mine, field);
    NumericMembers(theirs, field);
    assert multiset(Numeric(mine, field)) == multiset(Numeric(theirs, field));
    assert SubBag(multiset(Numeric(mine, field)), multiset(mine));
    SubBagDistinct(multiset(Numeric(mine, field)), multiset(mine));
    OrderedIs(Numeric(theirs, field), Numeric(mine, field));
    OrderedIs(Numeric(mine, field), Numeric(mine, field));
  }

  /** The predicate of a condition over claims that are already in order. */
  function HoldsSorted(condition: Condition, series: seq<Claim>, c: Claim): bool {
    if condition.Change? then ChangeHolds(condition, Numeric(series, condition.field), c)
    else Holds(condition, [])(c)
  }

  lemma {:induction false} StartsCongruent(series: seq<Claim>, f: Claim -> bool, g: Claim -> bool)
    requires forall i :: 0 <= i < |series| ==> f(series[i]) == g(series[i])
    ensures Starts(series, f) == Starts(series, g)
  {
    if series != [] {
      StartsCongruent(series[..|series| - 1], f, g);
    }
  }

  /** The store may list a snapshot in any order: what a source fires is decided by its series in
      arrival order. */
  lemma {:induction false} ViewFires(condition: Condition, arrivals: seq<Claim>, n: nat, view: seq<Claim>, source: string)
    requires InOrderArrivals(arrivals) && n <= |arrivals| && multiset(view) == multiset(arrivals[..n])
    ensures var mine := Series(arrivals[..n], source);
            Crossed(condition, Series(view, source)) == Starts(mine, (c: Claim) => HoldsSorted(condition, mine, c))
  {
    hide Starts, InOrderArrivals, ChangeHolds, Ordered;
    var mine, theirs := Series(arrivals[..n], source), Series(view, source);
    SameSeries(arrivals, n, view, source);
    if condition.Change? {
      SameNumeric(mine, theirs, condition.field);
    }
    StartsCongruent(mine, Holds(condition, theirs), (c: Claim) => HoldsSorted(condition, mine, c));
  }

  lemma SnapshotDistinct(arrivals: seq<Claim>, n: nat)
    requires InOrderArrivals(arrivals) && n <= |arrivals|
    ensures DistinctIds(multiset(arrivals[..n]))
  {
    assert arrivals == arrivals[..n] + arrivals[n..];
    assert SubBag(multiset(arrivals[..n]), multiset(arrivals));
    SubBagDistinct(multiset(arrivals[..n]), multiset(arrivals));
  }

  lemma NumericAppend(series: seq<Claim>, x: Claim, field: string)
    ensures Numeric(series + [x], field) ==
            if ClaimNumber(x, field).Some? then Numeric(series, field) + [x] else Numeric(series, field)
  {
    assert (series + [x])[..|series|] == series;
  }

  /** A later claim does not change whether an earlier one holds: a percent change looks back at least
      a day, and what arrives later is not that old. */
  lemma HoldsStable(condition: Condition, series: seq<Claim>, x: Claim, c: Claim)
    requires WellFormed(condition) && c.knowledgeDate <= x.knowledgeDate
    ensures HoldsSorted(condition, series + [x], c) == HoldsSorted(condition, series, c)
  {
    hide ChangeHolds, Numeric, ClaimNumber;
    if condition.Change? {
      NumericAppend(series, x, condition.field);
      SameBase(condition, Numeric(series, condition.field), [x], c);
    }
  }

  /** One more claim in a series can only add itself to what fires. */
  lemma StartsAppend(condition: Condition, series: seq<Claim>, x: Claim)
    requires WellFormed(condition) && Ascending(series + [x])
    ensures var before := Starts(series, (c: Claim) => HoldsSorted(condition, series, c));
            var after := Starts(series + [x], (c: Claim) => HoldsSorted(condition, series + [x], c));
            after == before || after == before + [x]
  {
    hide HoldsSorted;
    var grown := series + [x];
    var f, g := (c: Claim) => HoldsSorted(condition, grown, c), (c: Claim) => HoldsSorted(condition, series, c);
    assert grown[..|series|] == series;
    forall i | 0 <= i < |series| ensures f(series[i]) == g(series[i]) {
      assert Before(grown[i], grown[|series|]);
      HoldsStable(condition, series, x, series[i]);
    }
    StartsCongruent(series, f, g);
  }

  /** What one evaluation of a snapshot fires. */
  ghost predicate Fires(condition: Condition, view: seq<Claim>, c: Claim) {
    c in CrossedOf(condition, view, Sources(view))
  }

  /** Snapshots of the store after every arrival, each in any order. */
  ghost predicate Snapshots(arrivals: seq<Claim>, views: seq<seq<Claim>>) {
    |views| == |arrivals| + 1 && forall n :: 0 <= n < |views| ==> multiset(views[n]) == multiset(arrivals[..n])
  }

  lemma {:induction false} FiresIffStarts(condition: Condition, arrivals: seq<Claim>, n: nat, view: seq<Claim>, c: Claim)
    requires InOrderArrivals(arrivals) && n <= |arrivals| && multiset(view) == multiset(arrivals[..n])
    ensures var mine := Series(arrivals[..n], c.source);
            Fires(condition, view, c) <==> c in Starts(mine, (x: Claim) => HoldsSorted(condition, mine, x))
  {
    hide Starts, HoldsSorted, Crossed, CrossedOf, Series, Sources;
    FiresBySource(condition, view, c);
    ViewFires(condition, arrivals, n, view, c.source);
  }

  /** An arrival adds at most itself to what the next evaluation fires, and takes nothing away. */
  lemma {:induction false} ArrivalAddsItself(condition: Condition, arrivals: seq<Claim>, n: nat,
                                             before: seq<Claim>, after: seq<Claim>, c: Claim)
    requires WellFormed(condition) && InOrderArrivals(arrivals) && n < |arrivals|
    requires multiset(before) == multiset(arrivals[..n]) && multiset(after) == multiset(arrivals[..n + 1])
    ensures Fires(condition, before, c) ==> Fires(condition, after, c)
    ensures Fires(condition, after, c) ==> Fires(condition, before, c) || c == arrivals[n]
  {
    hide Starts, HoldsSorted, Fires;
    FiresIffStarts(condition, arrivals, n, before, c);
    FiresIffStarts(condition, arrivals, n + 1, after, c);
    assert arrivals[..n + 1][..n] == arrivals[..n];
    var series := Series(arrivals[..n], c.source);
    if arrivals[n].source == c.source {
      SeriesAscends(arrivals, n + 1, c.source);
      StartsAppend(condition, series, arrivals[n]);
    }
  }

  /** What re-evaluating after each of the first n arrivals has fired so far. */
  ghost predicate Streamed(condition: Condition, views: seq<seq<Claim>>, n: nat, c: Claim)
    requires n < |views|
  {
    exists m :: 0 <= m <= n && Fires(condition, views[m], c)
  }

  /** Streaming equals batch: if each source's claims arrive in order, re-evaluating after every
      arrival fires exactly the starts of the maximal true runs of each source's full history, which is
      what one evaluation at the end fires; and a claim only ever starts firing at its own arrival. */
  lemma {:induction false} StreamingIsBatch(condition: Condition, arrivals: seq<Claim>, views: seq<seq<Claim>>, c: Claim)
    requires WellFormed(condition) && InOrderArrivals(arrivals) && Snapshots(arrivals, views)
    ensures var history := Series(arrivals, c.source);
            var holds := (x: Claim) => HoldsSorted(condition, history, x);
            && (Streamed(condition, views, |arrivals|, c) <==> Fires(condition, views[|arrivals|], c))
            && (Streamed(condition, views, |arrivals|, c) <==>
                  exists i: nat, j: nat :: MaximalRun(history, holds, i, j) && history[i] == c)
    ensures forall n :: 0 <= n < |arrivals| && Fires(condition, views[n + 1], c) && !Fires(condition, views[n], c) ==>
              c == arrivals[n]
  {
    hide Fires, InOrderArrivals, HoldsSorted, Starts, MaximalRun;
    var last := |arrivals|;
    if Streamed(condition, views, last, c) {
      var m :| 0 <= m <= last && Fires(condition, views[m], c);
      var n := m;
      while n < last
        invariant m <= n <= last && Fires(condition, views[n], c)
      {
        ArrivalAddsItself(condition, arrivals, n, views[n], views[n + 1], c);
        n := n + 1;
      }
    }
    assert arrivals[..last] == arrivals;
    FiresIffStarts(condition, arrivals, last, views[last], c);
    var history := Series(arrivals, c.source);
    StartsAreMaximalRunStarts(history, (x: Claim) => HoldsSorted(condition, history, x), c);
    forall n | 0 <= n < last && Fires(condition, views[n + 1], c) && !Fires(condition, views[n], c)
      ensures c == arrivals[n]
    {
      ArrivalAddsItself(condition, arrivals, n, views[n], views[n + 1], c);
    }
  }

  /** Claims of one source never change another source's firings: only its own series matters. */
  lemma {:induction false} SourcesIndependent(condition: Condition, a: seq<Claim>, b: seq<Claim>, source: string, c: Claim)
    requires c.source == source && Series(a, source) == Series(b, source)
    ensures Fires(condition, a, c) <==> Fires(condition, b, c)
  {
    hide CrossedOf, Crossed, Series, Sources;
    FiresBySource(condition, a, c);
    FiresBySource(condition, b, c);
  }

  // ----- late arrivals -----

  /** Where ordering puts a claim into an ordered series. */
  function Place(x: Claim, sorted: seq<Claim>): (p: nat)
    ensures p <= |sorted|
  {
    if sorted == [] then 0
    else
      var n := |sorted| - 1;
      if Before(x, sorted[n]) then Place(x, sorted[..n]) else |sorted|
  }

  lemma {:induction false} InsertPlaces(x: Claim, sorted: seq<Claim>)
    requires Ascending(sorted)
    ensures var p := Place(x, sorted);
            && Insert(x, sorted) == sorted[..p] + [x] + sorted[p..]
            && (forall i :: p <= i < |sorted| ==> Before(x, sorted[i]))
            && (forall i :: 0 <= i < p ==> !Before(x, sorted[i]))
  {
    InsertSplits(x, sorted);
    PlaceOrders(x, sorted);
  }

  lemma {:induction false} InsertSplits(x: Claim, sorted: seq<Claim>)
    ensures Insert(x, sorted) == sorted[..Place(x, sorted)] + [x] + sorted[Place(x, sorted)..]
  {
    hide Before, Insert;
    InsertLast(x, sorted);
    if sorted != [] {
      var n := |sorted| - 1;
      if Before(x, sorted[n]) {
        InsertSplits(x, sorted[..n]);
        SplitLast(x, sorted, Place(x, sorted[..n]));
      } else {
        assert sorted[..|sorted|] == sorted && sorted[|sorted|..] == [];
      }
    }
  }

  lemma InsertLast(x: Claim, sorted: seq<Claim>)
    ensures Insert(x, sorted) ==
            if sorted != [] && Before(x, sorted[|sorted| - 1])
            then Insert(x, sorted[..|sorted| - 1]) + [sorted[|sorted| - 1]] else sorted + [x]
  {
  }

  lemma SplitLast<T>(x: T, all: seq<T>, p: nat)
    requires p < |all|
    ensures var n := |all| - 1; all[..n][..p] + [x] + all[..n][p..] + [all[n]] == all[..p] + [x] + all[p..]
  {
  }

  lemma {:induction false} PlaceOrders(x: Claim, sorted: seq<Claim>)
    requires Ascending(sorted)
    ensures forall i :: Place(x, sorted) <= i < |sorted| ==> Before(x, sorted[i])
    ensures forall i :: 0 <= i < Place(x, sorted) ==> !Before(x, sorted[i])
  {
    if sorted != [] {
      var n := |sorted| - 1;
      if Before(x, sorted[n]) {
        var front := sorted[..n];
        PlaceOrders(x, front);
        assert forall i :: 0 <= i < n ==> sorted[i] == front[i];
      } else {
        assert forall i :: 0 <= i < n ==> Before(sorted[i], sorted[n]);
      }
    }
  }

  ghost predicate StartAt(series: seq<Claim>, holds: Claim -> bool, i: int) {
    0 <= i < |series| && holds(series[i]) && (i == 0 || !holds(series[i - 1]))
  }

  lemma {:induction false} StartIs(series: seq<Claim>, holds: Claim -> bool, i: nat)
    requires Ascending(series) && i < |series|
    ensures series[i] in Starts(series, holds) <==> StartAt(series, holds, i)
  {
    hide Starts, Before;
    StartsAt(series, holds, series[i]);
    forall j: nat | j < |series| && series[j] == series[i] ensures j == i {
      SameIndex(series, i, j);
    }
  }

  lemma SameIndex(series: seq<Claim>, i: nat, j: nat)
    requires Ascending(series) && i < |series| && j < |series| && series[i] == series[j]
    ensures i == j
  {
  }

  /** A source's claims among the first n arrivals, in order. */
  ghost function History(arrivals: seq<Claim>, n: nat, source: string): seq<Claim>
    requires n <= |arrivals|
  {
    Ordered(Series(arrivals[..n], source))
  }

  lemma HistoryStep(arrivals: seq<Claim>, n: nat, source: string)
    requires n < |arrivals|
    ensures History(arrivals, n + 1, source) == if arrivals[n].source == source
                                                then Insert(arrivals[n], History(arrivals, n, source))
                                                else History(arrivals, n, source)
  {
    var mine := Series(arrivals[..n], source);
    assert arrivals[..n + 1][..n] == arrivals[..n];
    assert (mine + [arrivals[n]])[..|mine|] == mine;
  }

  lemma HistoryAscends(arrivals: seq<Claim>, n: nat, source: string)
    requires DistinctIds(multiset(arrivals)) && n <= |arrivals|
    ensures Ascending(History(arrivals, n, source)) && DistinctIds(multiset(Series(arrivals[..n], source)))
    ensures multiset(History(arrivals, n, source)) == multiset(Series(arrivals[..n], source))
  {
    var front, mine := arrivals[..n], Series(arrivals[..n], source);
    assert arrivals == front + arrivals[n..];
    SeriesMembers(front, source);
    assert SubBag(multiset(mine), multiset(arrivals));
    SubBagDistinct(multiset(mine), multiset(arrivals));
    OrderedAscends(mine);
  }

  /** What an evaluation fires, in whatever order claims arrived and the store lists them. */
  lemma {:induction false} FiresFromHistory(condition: Condition, arrivals: seq<Claim>, n: nat, view: seq<Claim>, c: Claim)
    requires DistinctIds(multiset(arrivals)) && n <= |arrivals| && multiset(view) == multiset(arrivals[..n])
    ensures var history := History(arrivals, n, c.source);
            Fires(condition, view, c) <==> c in Starts(history, (x: Claim) => HoldsSorted(condition, history, x))
  {
    hide Starts, ChangeHolds, Ordered, CrossedOf, Sources, Series, Ascending, DistinctIds;
    var source, history := c.source, History(arrivals, n, c.source);
    var mine, theirs := Series(arrivals[..n], source), Series(view, source);
    FiresBySource(condition, view, c);
    HistoryAscends(arrivals, n, source);
    SeriesMembers(arrivals[..n], source);
    SeriesMembers(view, source);
    assert multiset(mine) == multiset(theirs) == multiset(history);
    OrderedIs(theirs, history);
    if condition.Change? {
      SameNumeric(history, theirs, condition.field);
    }
    StartsCongruent(history, Holds(condition, theirs), (x: Claim) => HoldsSorted(condition, history, x));
  }

  /** The last re-evaluation that still fired a claim, before one that did not. */
  lemma {:induction false} LastFired(condition: Condition, views: seq<seq<Claim>>, m: nat, c: Claim) returns (n: nat)
    requires m < |views|
    ensures Fires(condition, views[m], c) && !Fires(condition, views[|views| - 1], c) ==>
              n < |views| - 1 && Fires(condition, views[n], c) && !Fires(condition, views[n + 1], c)
    decreases |views| - m
  {
    hide Fires;
    n := m;
    if m < |views| - 1 && Fires(condition, views[m + 1], c) {
      n := LastFired(condition, views, m + 1, c);
    }
  }

  lemma {:induction false} BisectFront(front: seq<Claim>, back: seq<Claim>, date: int)
    requires forall i :: 0 <= i < |back| ==> back[i].knowledgeDate > date
    ensures BisectRight(front + back, date) == BisectRight(front, date)
  {
    if back == [] {
      assert front + back == front;
    } else {
      var n := |back| - 1;
      assert (front + back)[..|front + back| - 1] == front + back[..n];
      BisectFront(front, back[..n], date);
    }
  }

  lemma {:induction false} NumericConcat(a: seq<Claim>, b: seq<Claim>, field: string)
    ensures Numeric(a + b, field) == Numeric(a, field) + Numeric(b, field)
  {
    if b == [] {
      assert a + b == a;
    } else {
      var n := |b| - 1;
      assert (a + b)[..|a + b| - 1] == a + b[..n];
      NumericConcat(a, b[..n], field);
    }
  }

  /** Only claims at least the window older can be a base. */
  lemma SameBase(condition: Condition, front: seq<Claim>, back: seq<Claim>, c: Claim)
    requires condition.Change?
    requires forall i :: 0 <= i < |back| ==> back[i].knowledgeDate > c.knowledgeDate - condition.window
    ensures ChangeHolds(condition, front + back, c) == ChangeHolds(condition, front, c)
  {
    hide ClaimNumber, BisectRight;
    BisectFront(front, back, c.knowledgeDate - condition.window);
  }

  /** Where the claims of a series stand once x is in. */
  lemma GrownAt(series: seq<Claim>, x: Claim, i: nat)
    requires Ascending(series) && i < |series|
    ensures var p, grown := Place(x, series), Insert(x, series);
            var j := if i < p then i else i + 1;
            && |grown| == |series| + 1 && grown[j] == series[i]
            && (i == p ==> grown[j - 1] == x) && (i != p && i > 0 ==> grown[j - 1] == series[i - 1])
            && (i == 0 && i != p ==> j == 0)
  {
    InsertPlaces(x, series);
    hide Ascending, Before, Place;
  }

  /** x becomes the base of c: it carries a number, is at least the window older, and no later claim of
      the series with a number is that old. */
  ghost predicate Rebases(condition: Condition, series: seq<Claim>, x: Claim, c: Claim) {
    condition.Change? && OldEnough(condition, x, c)
    && forall i :: Place(x, series) <= i < |series| ==> !OldEnough(condition, series[i], c)
  }

  predicate OldEnough(condition: Condition, base: Claim, c: Claim)
    requires condition.Change?
  {
    ClaimNumber(base, condition.field).Some? && base.knowledgeDate <= c.knowledgeDate - condition.window
  }

  lemma {:induction false} BisectBack(front: seq<Claim>, back: seq<Claim>, date: int)
    requires BisectRight(back, date) > 0
    ensures BisectRight(front + back, date) == |front| + BisectRight(back, date)
  {
    var n := |back| - 1;
    assert (front + back)[..|front + back| - 1] == front + back[..n];
    if back[n].knowledgeDate > date {
      BisectBack(front, back[..n], date);
    }
  }

  lemma {:induction false} BisectZeroIff(ordered: seq<Claim>, date: int)
    ensures BisectRight(ordered, date) == 0 <==> forall i :: 0 <= i < |ordered| ==> ordered[i].knowledgeDate > date
  {
    if ordered != [] {
      BisectZeroIff(ordered[..|ordered| - 1], date);
    }
  }

  /** The base is looked for among the later claims first. */
  lemma BaseOfBack(condition: Condition, front: seq<Claim>, back: seq<Claim>, c: Claim)
    requires condition.Change?
    ensures ChangeHolds(condition, front + back, c) ==
            if exists i :: 0 <= i < |back| && back[i].knowledgeDate <= c.knowledgeDate - condition.window
            then ChangeHolds(condition, back, c) else ChangeHolds(condition, front, c)
  {
    hide MovedFrom;
    var date := c.knowledgeDate - condition.window;
    BisectZeroIff(back, date);
    if BisectRight(back, date) > 0 {
      BisectBack(front, back, date);
    } else {
      SameBase(condition, front, back, c);
    }
  }

  lemma {:induction false} OldNumericIff(condition: Condition, series: seq<Claim>, c: Claim)
    requires condition.Change?
    ensures (exists i :: 0 <= i < |series| && OldEnough(condition, series[i], c)) <==>
            exists i :: 0 <= i < |Numeric(series, condition.field)|
                        && Numeric(series, condition.field)[i].knowledgeDate <= c.knowledgeDate - condition.window
  {
    hide ClaimNumber;
    if series != [] {
      var n, all := |series| - 1, Numeric(series, condition.field);
      var front := Numeric(series[..n], condition.field);
      OldNumericIff(condition, series[..n], c);
      if i :| 0 <= i < |series| && OldEnough(condition, series[i], c) {
        if i < n {
          assert OldEnough(condition, series[..n][i], c);
          var k :| 0 <= k < |front| && front[k].knowledgeDate <= c.knowledgeDate - condition.window;
          assert all[k] == front[k];
        } else {
          assert all[|all| - 1] == series[n];
        }
      }
      if k :| 0 <= k < |all| && all[k].knowledgeDate <= c.knowledgeDate - condition.window {
        if k < |front| {
          assert front[k] == all[k];
          var i :| 0 <= i < n && OldEnough(condition, series[..n][i], c);
          assert OldEnough(condition, series[i], c);
        } else {
          assert OldEnough(condition, series[n], c);
        }
      }
    }
  }

  lemma BaseAlone(condition: Condition, x: Claim, c: Claim)
    requires condition.Change?
    ensures x.knowledgeDate <= c.knowledgeDate - condition.window ==>
              ChangeHolds(condition, [x], c) == MovedFrom(condition, x, c)
  {
    hide MovedFrom;
  }

  /** What holds of c once x is between the front and the back of its series. */
  lemma {:induction false} HoldsBetween(condition: Condition, front: seq<Claim>, x: Claim, back: seq<Claim>, c: Claim)
    requires condition.Change?
    ensures HoldsSorted(condition, front + [x] + back, c) ==
            if OldEnough(condition, x, c) && (forall i :: 0 <= i < |back| ==> !OldEnough(condition, back[i], c))
            then MovedFrom(condition, x, c) else HoldsSorted(condition, front + back, c)
  {
    hide ClaimNumber, ChangeHolds, Numeric, MovedFrom;
    var field := condition.field;
    var f, b := Numeric(front, field), Numeric(back, field);
    NumericConcat(front + [x], back, field);
    NumericConcat(front, back, field);
    NumericAppend(front, x, field);
    OldNumericIff(condition, back, c);
    BaseOfBack(condition, f, b, c);
    if ClaimNumber(x, field).Some? {
      BaseOfBack(condition, f + [x], b, c);
      BaseOfBack(condition, f, [x], c);
      BaseAlone(condition, x, c);
      assert [x][0] == x;
    }
  }

  /** What a new claim makes of the others, under any condition: c is judged against x if x becomes its
      base, and as before otherwise. */
  lemma {:induction false} HoldsAfter(condition: Condition, series: seq<Claim>, x: Claim, c: Claim)
    ensures HoldsSorted(condition, Insert(x, series), c) ==
            if Rebases(condition, series, x, c) then MovedFrom(condition, x, c) else HoldsSorted(condition, series, c)
  {
    if condition.Change? {
      hide HoldsSorted, Insert, Place, OldEnough, MovedFrom, Rebases;
      InsertSplits(x, series);
      RebasesOver(condition, series, x, c);
      var front, back := series[..Place(x, series)], series[Place(x, series)..];
      assert series == front + back;
      HoldsBetween(condition, front, x, back, c);
    }
  }

  lemma RebasesOver(condition: Condition, series: seq<Claim>, x: Claim, c: Claim)
    requires condition.Change?
    ensures var back := series[Place(x, series)..];
            Rebases(condition, series, x, c) <==>
            OldEnough(condition, x, c) && forall i :: 0 <= i < |back| ==> !OldEnough(condition, back[i], c)
  {
    hide Place, OldEnough;
    var p := Place(x, series);
    var back := series[p..];
    if Rebases(condition, series, x, c) {
      forall i | 0 <= i < |back| ensures !OldEnough(condition, back[i], c) {
        assert back[i] == series[p + i];
      }
    }
    if forall i :: 0 <= i < |back| ==> !OldEnough(condition, back[i], c) {
      forall i | p <= i < |series| ensures !OldEnough(condition, series[i], c) {
        assert series[i] == back[i - p];
      }
    }
  }

  lemma {:induction false} NeverOwnBase(condition: Condition, series: seq<Claim>, x: Claim)
    requires WellFormed(condition)
    ensures HoldsSorted(condition, Insert(x, series), x) == HoldsSorted(condition, series, x)
  {
    hide HoldsSorted, Insert, Place, MovedFrom;
    HoldsAfter(condition, series, x, x);
  }

  /** x takes a run's start away from the claim at i: it becomes that claim's base and the claim did not
      move enough from it; or it comes right before the claim and holds itself; or it becomes the base of
      the claim before, which moved enough from it. */
  ghost predicate Unseats(condition: Condition, series: seq<Claim>, x: Claim, i: nat)
    requires i < |series|
  {
    || (Rebases(condition, series, x, series[i]) && !MovedFrom(condition, x, series[i]))
    || (i == Place(x, series) && HoldsSorted(condition, series, x))
    || (i != Place(x, series) && i > 0
        && Rebases(condition, series, x, series[i - 1]) && MovedFrom(condition, x, series[i - 1]))
  }

  ghost predicate StartsIn(condition: Condition, series: seq<Claim>, c: Claim) {
    c in Starts(series, (y: Claim) => HoldsSorted(condition, series, y))
  }

  ghost predicate StartHere(condition: Condition, series: seq<Claim>, i: nat)
    requires i < |series|
  {
    HoldsSorted(condition, series, series[i]) && (i == 0 || !HoldsSorted(condition, series, series[i - 1]))
  }

  lemma StartHereIff(condition: Condition, series: seq<Claim>, i: nat)
    requires Ascending(series) && i < |series|
    ensures StartsIn(condition, series, series[i]) <==> StartHere(condition, series, i)
  {
    hide Starts, HoldsSorted;
    StartIs(series, (y: Claim) => HoldsSorted(condition, series, y), i);
  }

  /** Whether a claim starts a run depends on what stands right before it. */
  lemma StartHereFollowing(condition: Condition, series: seq<Claim>, i: nat, c: Claim, before: Option<Claim>)
    requires Ascending(series) && i < |series| && series[i] == c
    requires if before.Some? then i > 0 && series[i - 1] == before.value else i == 0
    ensures StartsIn(condition, series, c) <==>
            HoldsSorted(condition, series, c) && (before.Some? ==> !HoldsSorted(condition, series, before.value))
  {
    hide StartsIn, HoldsSorted, Ascending;
    StartHereIff(condition, series, i);
  }

  /** What comes right before the claim at i once x is in: x itself, the claim at i - 1, or nothing. */
  lemma {:induction false} StartHereGrown(condition: Condition, series: seq<Claim>, x: Claim, i: nat)
    requires Ascending(series) && Ascending(Insert(x, series)) && i < |series|
    ensures var p, grown := Place(x, series), Insert(x, series);
            StartsIn(condition, grown, series[i]) <==>
            && HoldsSorted(condition, grown, series[i])
            && (i == p ==> !HoldsSorted(condition, grown, x))
            && (i != p && i > 0 ==> !HoldsSorted(condition, grown, series[i - 1]))
  {
    GrownAt(series, x, i);
    hide StartsIn, HoldsSorted, Insert, Place, Ascending;
    var p, grown := Place(x, series), Insert(x, series);
    var before := if i == p then Some(x) else if i > 0 then Some(series[i - 1]) else None;
    StartHereFollowing(condition, grown, if i < p then i else i + 1, series[i], before);
  }

  /** One claim of the series after x is in. */
  lemma {:induction false} StartAfter(condition: Condition, series: seq<Claim>, x: Claim, i: nat)
    requires WellFormed(condition) && Ascending(series) && Ascending(Insert(x, series))
    requires i < |series| && StartHere(condition, series, i)
    ensures StartsIn(condition, Insert(x, series), series[i]) <==> !Unseats(condition, series, x, i)
  {
    hide StartsIn, HoldsSorted, Insert, Place, Rebases, MovedFrom, Ascending;
    StartHereGrown(condition, series, x, i);
    HoldsAfter(condition, series, x, series[i]);
    NeverOwnBase(condition, series, x);
    if i > 0 {
      HoldsAfter(condition, series, x, series[i - 1]);
    }
  }

  /** The exact condition for one series: a new claim un-fires c if and only if it unseats it. */
  lemma {:induction false} UnfiresIff(condition: Condition, series: seq<Claim>, x: Claim, c: Claim)
    requires WellFormed(condition) && Ascending(series) && Ascending(Insert(x, series))
    ensures StartsIn(condition, series, c) && !StartsIn(condition, Insert(x, series), c) <==>
            exists i: nat :: i < |series| && series[i] == c && StartHere(condition, series, i)
                             && Unseats(condition, series, x, i)
  {
    hide StartsIn, StartHere, Unseats, Ascending, Insert;
    if StartsIn(condition, series, c) {
      StartsInSeries(condition, series, c);
      var i: nat :| i < |series| && series[i] == c;
      StartHereIff(condition, series, i);
      StartAfter(condition, series, x, i);
      forall k: nat | k < |series| && series[k] == c ensures k == i {
        SameIndex(series, k, i);
      }
    }
    if i: nat :| i < |series| && series[i] == c && StartHere(condition, series, i) && Unseats(condition, series, x, i) {
      StartHereIff(condition, series, i);
      StartAfter(condition, series, x, i);
    }
  }

  lemma StartsInSeries(condition: Condition, series: seq<Claim>, c: Claim)
    ensures StartsIn(condition, series, c) ==> c in series
  {
    StartsFromSeries(series, (y: Claim) => HoldsSorted(condition, series, y));
  }

  /** Under a level condition that is simply: x comes right before the claim and holds. */
  lemma LevelUnseats(condition: Condition, series: seq<Claim>, x: Claim, i: nat)
    requires condition.Level? && i < |series|
    ensures Unseats(condition, series, x, i) <==> i == Place(x, series) && Holds(condition, [])(x)
  {
  }

  /** The n-th arrival unseats c in the history of its source. */
  ghost predicate UnseatedBy(condition: Condition, arrivals: seq<Claim>, n: nat, c: Claim)
    requires n < |arrivals|
  {
    var history := History(arrivals, n, c.source);
    arrivals[n].source == c.source
    && exists i: nat :: i < |history| && history[i] == c && StartHere(condition, history, i)
                        && Unseats(condition, history, arrivals[n], i)
  }

  lemma {:induction false} FiresIffStartsIn(condition: Condition, arrivals: seq<Claim>, n: nat, view: seq<Claim>, c: Claim)
    requires DistinctIds(multiset(arrivals)) && n <= |arrivals| && multiset(view) == multiset(arrivals[..n])
    ensures Fires(condition, view, c) <==> StartsIn(condition, History(arrivals, n, c.source), c)
  {
    hide Starts, Fires, History, HoldsSorted, DistinctIds;
    FiresFromHistory(condition, arrivals, n, view, c);
  }

  /** Under any condition and any order of arrival and listing, an arrival un-fires a claim if and only if
      it unseats it. */
  lemma {:induction false} ArrivalUnfiresIff(condition: Condition, arrivals: seq<Claim>, n: nat,
                                             before: seq<Claim>, after: seq<Claim>, c: Claim)
    requires WellFormed(condition) && DistinctIds(multiset(arrivals)) && n < |arrivals|
    requires multiset(before) == multiset(arrivals[..n]) && multiset(after) == multiset(arrivals[..n + 1])
    ensures Fires(condition, before, c) && !Fires(condition, after, c) <==> UnseatedBy(condition, arrivals, n, c)
  {
    hide StartsIn, StartHere, Unseats, Fires, History, Ascending, DistinctIds;
    FiresIffStartsIn(condition, arrivals, n, before, c);
    FiresIffStartsIn(condition, arrivals, n + 1, after, c);
    HistoryStep(arrivals, n, c.source);
    HistoryAscends(arrivals, n, c.source);
    HistoryAscends(arrivals, n + 1, c.source);
    if arrivals[n].source == c.source {
      UnfiresIff(condition, History(arrivals, n, c.source), arrivals[n], c);
    }
  }

  /** The exact condition for whole runs, any order of arrival: streaming fires what one evaluation of the
      full history does if and only if every claim that some arrival unseats starts a run of the full
      history all the same (later arrivals having restored it). */
  lemma {:induction false} StreamingIsBatchIff(condition: Condition, arrivals: seq<Claim>, views: seq<seq<Claim>>)
    requires WellFormed(condition) && DistinctIds(multiset(arrivals)) && Snapshots(arrivals, views)
    ensures (forall c :: Streamed(condition, views, |arrivals|, c) <==> Fires(condition, views[|arrivals|], c))
            <==>
            forall n, c :: 0 <= n < |arrivals| && UnseatedBy(condition, arrivals, n, c) ==>
              StartsIn(condition, History(arrivals, |arrivals|, c.source), c)
  {
    hide Fires, StartsIn, History, UnseatedBy, DistinctIds;
    var last := |arrivals|;
    forall c
      ensures Fires(condition, views[last], c) <==> StartsIn(condition, History(arrivals, last, c.source), c)
    {
      FiresIffStartsIn(condition, arrivals, last, views[last], c);
    }
    forall n, c | 0 <= n < last
      ensures Fires(condition, views[n], c) && !Fires(condition, views[n + 1], c) <==> UnseatedBy(condition, arrivals, n, c)
    {
      ArrivalUnfiresIff(condition, arrivals, n, views[n], views[n + 1], c);
    }
    forall c | Streamed(condition, views, last, c) && !Fires(condition, views[last], c)
      ensures exists n :: 0 <= n < last && UnseatedBy(condition, arrivals, n, c)
    {
      var m :| 0 <= m <= last && Fires(condition, views[m], c);
      var n := LastFired(condition, views, m, c);
      assert UnseatedBy(condition, arrivals, n, c);
    }
    forall n, c | 0 <= n < last && UnseatedBy(condition, arrivals, n, c) ensures Streamed(condition, views, last, c) {
      assert Fires(condition, views[n], c);
    }
  }

  // ----- what it means to hold, in the claims' own numbers -----

  /** The claim carries the number v in the field. */
  ghost predicate Carries(c: Claim, field: string, v: real) {
    c.value.Object? && field in c.value.fields && c.value.fields[field] == Number(v)
  }

  /** v has moved by pct percent from b, upwards or downwards, by the size of b. */
  predicate Cleared(up: bool, pct: real, b: real, v: real) {
    if b > 0.0 then (if up then 100.0 * (v - b) >= pct * b else 100.0 * (b - v) >= pct * b)
    else b < 0.0 && if up then 100.0 * (v - b) <= pct * b else 100.0 * (b - v) <= pct * b
  }

  lemma ClearedIff(up: bool, pct: real, b: real, v: real)
    requires b != 0.0
    ensures var change := (v - b) / b;
            Cleared(up, pct, b, v) <==> if up then change >= pct / 100.0 else change <= -pct / 100.0
  {
    var change, x := (v - b) / b, pct / 100.0;
    Quotient(v - b, b);
    assert 100.0 * x == pct;
    ClearedBy(up, x, b, v, change);
  }

  lemma Quotient(a: real, b: real)
    requires b != 0.0
    ensures a / b * b == a
  {
  }

  lemma ClearedBy(up: bool, x: real, b: real, v: real, change: real)
    requires b != 0.0 && change * b == v - b
    ensures Cleared(up, 100.0 * x, b, v) <==> if up then change >= x else change <= -x
  {
    Scale(change, x, b);
    Scale(-x, change, b);
    Hundredfold(x, b);
  }

  lemma Hundredfold(x: real, b: real)
    ensures 100.0 * x * b == 100.0 * (x * b) && -x * b == -(x * b)
  {
  }

  lemma Scale(p: real, q: real, b: real)
    requires b != 0.0
    ensures b > 0.0 ==> (p >= q <==> p * b >= q * b)
    ensures b < 0.0 ==> (p >= q <==> p * b <= q * b)
  {
    assert p * b - q * b == (p - q) * b;
    if b > 0.0 {
      if p >= q {
        assert (p - q) * b >= 0.0;
      } else {
        assert (p - q) * b < 0.0;
      }
    } else {
      if p >= q {
        assert (p - q) * b <= 0.0;
      } else {
        assert (p - q) * b > 0.0;
      }
    }
  }

  /** Against one base: both numbers are there, the base is not zero, and the change clears the percentage. */
  lemma {:induction false} MovedFromIff(condition: Condition, base: Claim, c: Claim)
    requires condition.Change?
    ensures MovedFrom(condition, base, c) <==>
            exists b, v :: Carries(base, condition.field, b) && Carries(c, condition.field, v)
                           && Cleared(condition.up, condition.pct, b, v)
  {
    hide Cleared;
    var field := condition.field;
    CarriesIff(base, field);
    CarriesIff(c, field);
    NotAgainstZero(condition);
    if ClaimNumber(base, field).Some? && ClaimNumber(c, field).Some? {
      var b, v := ClaimNumber(base, field).value, ClaimNumber(c, field).value;
      if b != 0.0 {
        ClearedIff(condition.up, condition.pct, b, v);
      }
      assert Carries(base, field, b) && Carries(c, field, v);
    }
  }

  lemma CarriesIff(c: Claim, field: string)
    ensures forall v :: Carries(c, field, v) <==> ClaimNumber(c, field) == Some(v)
  {
  }

  lemma NotAgainstZero(condition: Condition)
    requires condition.Change?
    ensures forall v :: !Cleared(condition.up, condition.pct, 0.0, v)
  {
  }

  /** A claim of the series is the base of c: at least the window older with a number, and the newest such. */
  ghost predicate BaseAt(condition: Condition, series: seq<Claim>, c: Claim, i: nat)
    requires condition.Change?
  {
    && i < |series| && OldBase(condition, series[i], c)
    && forall j :: i < j < |series| ==> !OldBase(condition, series[j], c)
  }

  ghost predicate OldBase(condition: Condition, base: Claim, c: Claim)
    requires condition.Change?
  {
    base.knowledgeDate <= c.knowledgeDate - condition.window && exists b :: Carries(base, condition.field, b)
  }

  /** What it means for a claim of an ordered series to satisfy a condition. */
  ghost predicate Meets(condition: Condition, series: seq<Claim>, c: Claim) {
    match condition
    case Level(above, threshold, field) => exists v :: Carries(c, field, v) && if above then v > threshold else v < threshold
    case Change(up, pct, window, field) =>
      exists i: nat, b, v :: BaseAt(condition, series, c, i)
                             && Carries(series[i], field, b) && Carries(c, field, v) && Cleared(up, pct, b, v)
  }

  lemma {:induction false} ChangeHoldsIff(condition: Condition, series: seq<Claim>, c: Claim)
    requires condition.Change?
    ensures ChangeHolds(condition, Numeric(series, condition.field), c) <==>
            exists i: nat :: BaseAt(condition, series, c, i) && MovedFrom(condition, series[i], c)
  {
    hide MovedFrom, ChangeHolds, Numeric;
    if series == [] {
      NoBase(condition, c);
    } else {
      var n, field := |series| - 1, condition.field;
      var front, last := series[..n], series[n];
      assert series == front + [last];
      ChangeHoldsIff(condition, front, c);
      NumericAppend(front, last, field);
      OldBaseIff(condition, last, c);
      BaseAlone(condition, last, c);
      if ClaimNumber(last, field).Some? {
        BaseOfBack(condition, Numeric(front, field), [last], c);
        assert [last][0] == last;
      }
      BaseAppend(condition, front, last, c);
    }
  }

  lemma NoBase(condition: Condition, c: Claim)
    requires condition.Change?
    ensures !ChangeHolds(condition, Numeric([], condition.field), c)
  {
  }

  lemma OldBaseIff(condition: Condition, base: Claim, c: Claim)
    requires condition.Change?
    ensures OldBase(condition, base, c) <==>
            base.knowledgeDate <= c.knowledgeDate - condition.window && ClaimNumber(base, condition.field).Some?
  {
    CarriesIff(base, condition.field);
    var number := ClaimNumber(base, condition.field);
    if number.Some? {
      assert Carries(base, condition.field, number.value);
    }
  }

  /** A newer claim that is old enough is the base; otherwise the base stays. */
  lemma BaseAppend(condition: Condition, front: seq<Claim>, last: Claim, c: Claim)
    requires condition.Change?
    ensures forall i: nat :: BaseAt(condition, front + [last], c, i) <==>
              if OldBase(condition, last, c) then i == |front| else BaseAt(condition, front, c, i)
  {
    hide OldBase;
    var all := front + [last];
    assert all[|front|] == last;
    assert forall j :: 0 <= j < |front| ==> all[j] == front[j];
    forall i: nat
      ensures BaseAt(condition, all, c, i) <==>
              if OldBase(condition, last, c) then i == |front| else BaseAt(condition, front, c, i)
    {
      if i < |front| && !OldBase(condition, last, c) && BaseAt(condition, front, c, i) {
        assert forall j :: i < j < |all| ==> !OldBase(condition, all[j], c);
      }
      if i < |front| && BaseAt(condition, all, c, i) {
        assert !OldBase(condition, all[|front|], c);
        assert forall j :: i < j < |front| ==> !OldBase(condition, all[j], c);
      }
    }
  }

  /** Holding is meeting the condition: a level, by the claim's own number; a percent change, by the newest
      number at least the window older, without division: up by pct from a positive base b means
      100 (v - b) >= pct b, down means 100 (b - v) >= pct b, reversed for a negative base, and never for a
      base of zero. */
  lemma {:induction false} HoldsIffMeets(condition: Condition, series: seq<Claim>, c: Claim)
    ensures HoldsSorted(condition, series, c) <==> Meets(condition, series, c)
  {
    match condition
    case Level(_, _, field) => CarriesIff(c, field);
    case Change(up, pct, window, field) =>
      hide ChangeHolds, Numeric, MovedFrom, Cleared, BaseAt, Carries;
      ChangeHoldsIff(condition, series, c);
      forall i: nat | BaseAt(condition, series, c, i)
        ensures MovedFrom(condition, series[i], c) <==>
                exists b, v :: Carries(series[i], field, b) && Carries(c, field, v) && Cleared(up, pct, b, v)
      {
        MovedFromIff(condition, series[i], c);
      }
  }

  /** What an evaluation fires, in those terms: the claims that meet the condition in their source's history
      right after one that does not, or at the very start. */
  lemma {:induction false} FiresIffMeets(condition: Condition, arrivals: seq<Claim>, n: nat, view: seq<Claim>, c: Claim)
    requires DistinctIds(multiset(arrivals)) && n <= |arrivals| && multiset(view) == multiset(arrivals[..n])
    ensures var history := History(arrivals, n, c.source);
            Fires(condition, view, c) <==>
            exists i: nat :: i < |history| && history[i] == c && Meets(condition, history, c)
                             && (i == 0 || !Meets(condition, history, history[i - 1]))
  {
    hide Fires, History, Starts, HoldsSorted, Meets, Ascending, DistinctIds;
    var history := History(arrivals, n, c.source);
    FiresFromHistory(condition, arrivals, n, view, c);
    StartsAt(history, (x: Claim) => HoldsSorted(condition, history, x), c);
    forall x ensures HoldsSorted(condition, history, x) <==> Meets(condition, history, x) {
      HoldsIffMeets(condition, history, x);
    }
  }

  /** An above and a below condition on one threshold never both fire a claim, and neither fires one whose
      number is the threshold or that carries none. */
  lemma {:induction false} LevelsExclude(threshold: real, field: string, arrivals: seq<Claim>, n: nat, view: seq<Claim>,
                                         c: Claim)
    requires DistinctIds(multiset(arrivals)) && n <= |arrivals| && multiset(view) == multiset(arrivals[..n])
    ensures Fires(Level(true, threshold, field), view, c) ==> exists v :: Carries(c, field, v) && v > threshold
    ensures Fires(Level(false, threshold, field), view, c) ==> exists v :: Carries(c, field, v) && v < threshold
    ensures !(Fires(Level(true, threshold, field), view, c) && Fires(Level(false, threshold, field), view, c))
  {
    hide Fires, History, DistinctIds, Carries;
    FiresIffMeets(Level(true, threshold, field), arrivals, n, view, c);
    FiresIffMeets(Level(false, threshold, field), arrivals, n, view, c);
    OneNumber(c, field);
  }

  lemma OneNumber(c: Claim, field: string)
    ensures forall v, w :: Carries(c, field, v) && Carries(c, field, w) ==> v == w
  {
  }

  // ----- inputs -----

  function Reading(id: nat, day: int, n: real): Claim {
    Claim(id, "price", "P", Object(map["value" := Number(n)]), "s", day, day)
  }

  /** Order of arrival matters: an older claim that arrives late makes streaming fire a claim that the
      full history does not. */
  lemma {:induction false} LateArrivalBreaksIt()
    ensures var condition := Level(true, 100.0, "value");
            var newer, older := Reading(2, 2, 120.0), Reading(1, 1, 110.0);
            Fires(condition, [newer], newer) && !Fires(condition, [newer, older], newer)
  {
    hide CrossedOf, Sources, Series, Crossed;
    var condition := Level(true, 100.0, "value");
    var newer, older := Reading(2, 2, 120.0), Reading(1, 1, 110.0);
    FiresBySource(condition, [newer], newer);
    FiresBySource(condition, [newer, older], newer);
    AloneFires(condition, newer);
    TogetherFires(condition, newer, older);
  }

  lemma AloneFires(condition: Condition, c: Claim)
    requires Holds(condition, [c])(c)
    ensures Crossed(condition, Series([c], c.source)) == [c]
  {
    hide Holds;
    OrderedPair(c, c);
    SeriesPair(c, c);
    StartsPair(c, c, Holds(condition, [c]));
  }

  lemma TogetherFires(condition: Condition, newer: Claim, older: Claim)
    requires Before(older, newer) && newer.source == older.source
    requires Holds(condition, [newer, older])(newer) && Holds(condition, [newer, older])(older)
    ensures Crossed(condition, Series([newer, older], newer.source)) == [older]
  {
    hide Holds, Ordered, Series, Starts;
    OrderedPair(newer, older);
    SeriesPair(newer, older);
    StartsPair(older, newer, Holds(condition, [newer, older]));
  }

  lemma OrderedPair(newer: Claim, older: Claim)
    ensures Ordered([newer]) == [newer]
    ensures Before(older, newer) ==> Ordered([newer, older]) == [older, newer]
  {
    assert [newer, older][..1] == [newer] && [newer][..0] == [];
    assert Ordered([newer]) == Insert(newer, []);
    assert [newer][..0] == [] && Insert(older, []) == [older];
  }

  lemma SeriesPair(a: Claim, b: Claim)
    ensures Series([a], a.source) == [a]
    ensures a.source == b.source ==> Series([a, b], a.source) == [a, b]
  {
    assert [a, b][..1] == [a] && [a][..0] == [];
    assert Series([a], a.source) == Series([], a.source) + [a];
  }

  lemma StartsPair(a: Claim, b: Claim, holds: Claim -> bool)
    requires holds(a)
    ensures Starts([a], holds) == [a]
    ensures holds(b) ==> Starts([a, b], holds) == [a]
  {
    assert [a, b][..1] == [a] && [a][..0] == [];
    assert Starts([a], holds) == Starts([], holds) + [a];
  }

  const RISE: Condition := Change(true, 10.0, DAY, "value")
  const BASE: Claim := Reading(1, 1 * DAY, 100.0)
  const LATE: Claim := Reading(2, 2 * DAY, 115.0)
  const TOP: Claim := Reading(3, 3 * DAY, 120.0)

  /** Under a percent change a late claim can become a base: 120 rises by a fifth from 100, but not by a
      tenth from a 115 that arrives after it. */
  lemma {:induction false} LateBaseBreaksIt()
    ensures var arrivals, views := [BASE, TOP, LATE], [[], [BASE], [BASE, TOP], [BASE, TOP, LATE]];
            && WellFormed(RISE) && Snapshots(arrivals, views)
            && Streamed(RISE, views, 3, TOP) && !Fires(RISE, views[3], TOP)
  {
    hide Fires, History, DistinctIds, StartHere, Unseats, HoldsSorted;
    var arrivals, views := [BASE, TOP, LATE], [[], [BASE], [BASE, TOP], [BASE, TOP, LATE]];
    assert arrivals[..0] == [] && arrivals[..1] == [BASE] && arrivals[..2] == [BASE, TOP] && arrivals[..3] == arrivals;
    LateDistinct();
    LateHistory();
    LateUnseats();
    assert UnseatedBy(RISE, arrivals, 2, TOP);
    ArrivalUnfiresIff(RISE, arrivals, 2, views[2], views[3], TOP);
  }

  lemma LateDistinct()
    ensures DistinctIds(multiset([BASE, TOP, LATE])) && DistinctIds(multiset([BASE, TOP]))
  {
  }

  lemma LateHistory()
    ensures History([BASE, TOP, LATE], 2, TOP.source) == [BASE, TOP]
  {
    hide DistinctIds;
    LateDistinct();
    assert [BASE, TOP, LATE][..2] == [BASE, TOP];
    SeriesPair(BASE, TOP);
    OrderedIs([BASE, TOP], [BASE, TOP]);
  }

  lemma {:induction false} LateUnseats()
    ensures StartHere(RISE, [BASE, TOP], 1) && Unseats(RISE, [BASE, TOP], LATE, 1)
  {
    var series := [BASE, TOP];
    assert series[..1] == [BASE] && [BASE][..0] == [];
    assert Numeric([BASE], "value") == Numeric([], "value") + [BASE];
    assert Numeric(series, "value") == [BASE] + [TOP] == series;
    assert BisectRight(series, 2 * DAY) == 1 && BisectRight(series, 0) == 0;
    assert Place(LATE, series) == 1;
  }
}
