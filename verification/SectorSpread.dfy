/** Greedy sector-capped selection from a ranked list (src/omni/api/scanner.py).
    Positions in the ranked list stand for names, so a list that repeats a name is covered too. */
module SectorSpread {
  import opened Sets

  datatype Asset = Asset(symbol: string, score: real)

  /** The arguments of one selection. `sectorOf` lacks a key exactly when the name has no sector edge. */
  datatype Problem = Problem(ranked: seq<Asset>, sectorOf: map<string, string>, maxNames: int, perSector: int) {
    predicate Sectored(j: int) {
      0 <= j < |ranked| && ranked[j].symbol in sectorOf
    }

    predicate InSector(j: int, s: string) {
      Sectored(j) && sectorOf[ranked[j].symbol] == s
    }

    ghost function OfSector(picked: set<int>, s: string): set<int> {
      set j | j in picked && InSector(j, s)
    }

    /** A choice the caps allow: sectored positions, few enough overall and per sector. */
    ghost predicate Feasible(choice: set<int>) {
      && (forall j :: j in choice ==> Sectored(j))
      && |choice| <= maxNames
      && forall s :: |OfSector(choice, s)| <= perSector
    }

    ghost predicate ScoreDescending() {
      forall i, j :: 0 <= i < j < |ranked| ==> ranked[i].score >= ranked[j].score
    }

    ghost predicate ScoresNonNegative() {
      forall i :: 0 <= i < |ranked| ==> ranked[i].score >= 0.0
    }

    /** Whether the walk keeps position j, having kept `picked` before it. The overall cap is
        tested only after a pick, so the first pick is never refused by it. */
    ghost predicate Takes(picked: set<int>, j: int)
      requires 0 <= j < |ranked|
    {
      Sectored(j)
      && |OfSector(picked, sectorOf[ranked[j].symbol])| < perSector
      && (picked == {} || |picked| < maxNames)
    }

    /** The positions kept among the first i. */
    ghost function Kept(i: nat): (kept: set<int>)
      requires i <= |ranked|
      ensures forall j :: j in kept ==> 0 <= j < i && Sectored(j)
    {
      if i == 0 then {}
      else if Takes(Kept(i - 1), i - 1) then Kept(i - 1) + {i - 1} else Kept(i - 1)
    }

    ghost function Chosen(): set<int> {
      Kept(|ranked|)
    }

    /** Total score of the members of `choice` among the first i positions. */
    ghost function Score(choice: set<int>, i: nat): real
      requires i <= |ranked|
    {
      if i == 0 then 0.0
      else Score(choice, i - 1) + (if i - 1 in choice then ranked[i - 1].score else 0.0)
    }

    /** The picked names in ranked order, each with unit weight. */
    ghost function Listing(picked: set<int>, i: nat): seq<(string, real)>
      requires i <= |ranked|
    {
      if i == 0 then []
      else Listing(picked, i - 1) + (if i - 1 in picked then [(ranked[i - 1].symbol, 1.0)] else [])
    }
  }

  function Below(choice: set<int>, i: int): set<int> {
    set j | j in choice && j < i
  }

  // ----- the loop -----

  /** The running counts are those of the kept positions. */
  ghost predicate Tallies(p: Problem, counts: map<string, int>, kept: set<int>) {
    forall s :: (if s in counts then counts[s] else 0) == |p.OfSector(kept, s)|
  }

  /** The selection loop. The result lists exactly the positions of `Chosen`. */
  method Select(p: Problem) returns (picks: seq<(string, real)>)
    ensures picks == p.Listing(p.Chosen(), |p.ranked|)
    ensures |picks| == |p.Chosen()|
  {
    hide Problem.Kept, Problem.Listing, Problem.OfSector, Tallies;
    picks := [];
    var counts: map<string, int> := map[];
    NothingKept(p);
    var i := 0;
    while i < |p.ranked|
      invariant 0 <= i <= |p.ranked|
      invariant picks == p.Listing(p.Kept(i), i)
      invariant |picks| == |p.Kept(i)|
      invariant picks == [] || |picks| < p.maxNames
      invariant Tallies(p, counts, p.Kept(i))
    {
      var asset := p.ranked[i];
      if asset.symbol !in p.sectorOf {
        Skips(p, i);
        i := i + 1;
        continue;
      }
      var sector := p.sectorOf[asset.symbol];
      var count := if sector in counts then counts[sector] else 0;
      CountIs(p, counts, p.Kept(i), sector);
      if count >= p.perSector {
        Skips(p, i);
        i := i + 1;
        continue;
      }
      Keeps(p, i, counts);
      picks := picks + [(asset.symbol, 1.0)];
      counts := counts[sector := count + 1];
      i := i + 1;
      if |picks| >= p.maxNames {
        KeptStuck(p, i, |p.ranked|);
        ListingStuck(p, i, |p.ranked|);
        return;
      }
    }
  }

  lemma NothingKept(p: Problem)
    ensures p.Kept(0) == {} && p.Listing({}, 0) == [] && Tallies(p, map[], {})
  {
    assert forall s :: p.OfSector({}, s) == {};
  }

  lemma CountIs(p: Problem, counts: map<string, int>, kept: set<int>, s: string)
    requires Tallies(p, counts, kept)
    ensures (if s in counts then counts[s] else 0) == |p.OfSector(kept, s)|
  {
  }

  lemma Skips(p: Problem, i: nat)
    requires i < |p.ranked| && !p.Takes(p.Kept(i), i)
    ensures p.Kept(i + 1) == p.Kept(i)
    ensures p.Listing(p.Kept(i + 1), i + 1) == p.Listing(p.Kept(i), i)
  {
  }

  lemma Keeps(p: Problem, i: nat, counts: map<string, int>)
    requires i < |p.ranked| && p.Takes(p.Kept(i), i) && Tallies(p, counts, p.Kept(i))
    ensures |p.Kept(i + 1)| == |p.Kept(i)| + 1
    ensures p.Listing(p.Kept(i + 1), i + 1) == p.Listing(p.Kept(i), i) + [(p.ranked[i].symbol, 1.0)]
    ensures var s := p.sectorOf[p.ranked[i].symbol];
            Tallies(p, counts[s := 1 + if s in counts then counts[s] else 0], p.Kept(i + 1))
  {
    hide Tallies, Problem.OfSector;
    ListingFrame(p, p.Kept(i), p.Kept(i + 1), i);
    CountOneMore(p, counts, p.Kept(i), i);
  }

  lemma CountOneMore(p: Problem, counts: map<string, int>, kept: set<int>, j: int)
    requires p.Sectored(j) && j !in kept && Tallies(p, counts, kept)
    ensures var s := p.sectorOf[p.ranked[j].symbol];
            Tallies(p, counts[s := 1 + if s in counts then counts[s] else 0], kept + {j})
  {
    hide Problem.OfSector;
    OfSectorGrows(p, kept, j);
  }

  lemma ListingFrame(p: Problem, a: set<int>, b: set<int>, i: nat)
    requires i <= |p.ranked|
    requires forall j :: 0 <= j < i ==> (j in a <==> j in b)
    ensures p.Listing(a, i) == p.Listing(b, i)
  {
  }

  lemma OfSectorGrows(p: Problem, kept: set<int>, j: int)
    requires p.Sectored(j) && j !in kept
    ensures forall s :: |p.OfSector(kept + {j}, s)| ==
                        |p.OfSector(kept, s)| + (if p.InSector(j, s) then 1 else 0)
  {
    forall s
      ensures |p.OfSector(kept + {j}, s)| == |p.OfSector(kept, s)| + (if p.InSector(j, s) then 1 else 0)
    {
      OneMoreOfSector(p, kept, j, s);
    }
  }

  /** Once the overall cap is reached nothing more is kept: stopping early loses nothing. */
  lemma KeptStuck(p: Problem, i: nat, n: nat)
    requires i <= n <= |p.ranked|
    requires p.Kept(i) != {} && |p.Kept(i)| >= p.maxNames
    ensures p.Kept(n) == p.Kept(i)
    decreases n
  {
    if i < n {
      KeptStuck(p, i, n - 1);
    }
  }

  lemma ListingStuck(p: Problem, i: nat, n: nat)
    requires i <= n <= |p.ranked|
    requires p.Kept(n) == p.Kept(i)
    ensures p.Listing(p.Kept(n), n) == p.Listing(p.Kept(i), i)
  {
    ghost var kept := p.Kept(i);
    var m := i;
    while m < n
      invariant i <= m <= n
      invariant p.Listing(kept, m) == p.Listing(kept, i)
    {
      m := m + 1;
    }
  }

  // ----- the greedy choice is feasible -----

  lemma KeptCaps(p: Problem, i: nat)
    requires i <= |p.ranked| && p.perSector >= 0
    ensures |p.Kept(i)| <= if p.maxNames >= 1 then p.maxNames else 1
    ensures forall s :: |p.OfSector(p.Kept(i), s)| <= p.perSector
  {
    if i == 0 {
      assert forall s :: p.OfSector({}, s) == {};
    } else {
      KeptCaps(p, i - 1);
      if p.Takes(p.Kept(i - 1), i - 1) {
        OfSectorGrows(p, p.Kept(i - 1), i - 1);
      }
    }
  }

  lemma KeptEmptyUntilSectored(p: Problem, i: nat)
    requires i <= |p.ranked|
    ensures p.Kept(i) == {} <==> p.perSector <= 0 || forall j :: 0 <= j < i ==> !p.Sectored(j)
  {
    if i > 0 {
      KeptEmptyUntilSectored(p, i - 1);
      if p.Kept(i - 1) == {} && p.Sectored(i - 1) {
        assert p.OfSector({}, p.sectorOf[p.ranked[i - 1].symbol]) == {};
      }
    }
  }

  /** The overall cap holds exactly when it is positive, or zero with nothing to pick: the test
      comes after the append, so a cap of zero or less still lets one name in. */
  lemma CapHoldsIff(p: Problem)
    ensures |p.Chosen()| <= p.maxNames <==>
            p.maxNames >= 1
            || (p.maxNames == 0 && (p.perSector <= 0 || forall j :: 0 <= j < |p.ranked| ==> !p.Sectored(j)))
  {
    KeptEmptyUntilSectored(p, |p.ranked|);
    if p.perSector >= 0 {
      KeptCaps(p, |p.ranked|);
    }
  }

  lemma ChosenFeasible(p: Problem)
    requires p.maxNames >= 1 && p.perSector >= 0
    ensures p.Feasible(p.Chosen())
  {
    KeptCaps(p, |p.ranked|);
  }

  // ----- the choice in closed form -----

  /** How many of the first i names are of sector s. */
  function NamesOf(p: Problem, s: string, i: nat): (n: nat)
    requires i <= |p.ranked|
    ensures n <= i
  {
    if i == 0 then 0 else NamesOf(p, s, i - 1) + if p.InSector(i - 1, s) then 1 else 0
  }

  function Min(a: int, b: int): int {
    if a <= b then a else b
  }

  /** The overall cap as the walk applies it: the first pick is never refused. */
  function Cap(p: Problem): int {
    if p.maxNames >= 1 then p.maxNames else 1
  }

  /** How many places the first i names of the ranking can fill: each sector's names, up to the cap
      per sector, summed over the sectors. */
  ghost function Places(p: Problem, i: nat, sectors: set<string>): int
    requires i <= |p.ranked|
  {
    if sectors == {} then 0
    else
      var s := Any(sectors);
      Min(p.perSector, NamesOf(p, s, i)) + Places(p, i, sectors - {s})
  }

  ghost function Any(sectors: set<string>): (s: string)
    requires sectors != {}
    ensures s in sectors
  {
    var s :| s in sectors;
    s
  }

  ghost function Demand(p: Problem, i: nat): int
    requires i <= |p.ranked|
  {
    Places(p, i, p.sectorOf.Values)
  }

  /** The name is among the first perSector of its sector. */
  ghost predicate Entitled(p: Problem, j: nat) {
    p.Sectored(j) && NamesOf(p, p.sectorOf[p.ranked[j].symbol], j) < p.perSector
  }

  lemma {:induction false} NoPlaces(p: Problem, sectors: set<string>)
    requires p.perSector >= 0
    ensures Places(p, 0, sectors) == 0
  {
    if sectors != {} {
      NoPlaces(p, sectors - {Any(sectors)});
    }
  }

  /** One more name fills one more place exactly when its sector is counted and has room. */
  lemma {:induction false} PlacesStep(p: Problem, i: nat, sectors: set<string>)
    requires i < |p.ranked|
    ensures Places(p, i + 1, sectors) == Places(p, i, sectors)
            + (if Entitled(p, i) && p.sectorOf[p.ranked[i].symbol] in sectors then 1 else 0)
  {
    if sectors != {} {
      PlacesStep(p, i, sectors - {Any(sectors)});
    }
  }

  lemma DemandStep(p: Problem, i: nat)
    requires i < |p.ranked|
    ensures Demand(p, i + 1) == Demand(p, i) + (if Entitled(p, i) then 1 else 0)
  {
    PlacesStep(p, i, p.sectorOf.Values);
  }

  lemma {:induction false} DemandGrows(p: Problem, i: nat, j: nat)
    requires i <= j <= |p.ranked|
    ensures Demand(p, i) <= Demand(p, j)
    decreases j
  {
    if i < j {
      DemandGrows(p, i, j - 1);
      DemandStep(p, j - 1);
    }
  }

  /** While there is room overall, a sector has been given its names up to the cap per sector. */
  ghost predicate SectorsFilled(p: Problem, i: nat)
    requires i <= |p.ranked|
  {
    forall s :: |p.OfSector(p.Kept(i), s)| == Min(p.perSector, NamesOf(p, s, i))
  }

  lemma FilledStep(p: Problem, i: nat)
    requires i < |p.ranked| && SectorsFilled(p, i)
    requires p.Takes(p.Kept(i), i) <==> Entitled(p, i)
    ensures SectorsFilled(p, i + 1)
  {
    hide Problem.Kept, Problem.OfSector;
    KeptNext(p, i);
    var before, after, n := p.Kept(i), p.Kept(i + 1), i + 1;
    forall s ensures |p.OfSector(after, s)| == Min(p.perSector, NamesOf(p, s, n)) {
      assert |p.OfSector(before, s)| == Min(p.perSector, NamesOf(p, s, i));
      OneMoreOfSector(p, before, i, s);
    }
  }

  lemma NothingFilled(p: Problem)
    requires p.perSector >= 0
    ensures SectorsFilled(p, 0)
  {
    NothingKept(p);
    assert forall s :: p.OfSector({}, s) == {};
  }

  lemma FilledTakes(p: Problem, i: nat)
    requires i < |p.ranked| && SectorsFilled(p, i) && |p.Kept(i)| < Cap(p)
    ensures p.Takes(p.Kept(i), i) <==> Entitled(p, i)
  {
    hide Problem.Kept, Problem.OfSector;
    if p.Sectored(i) {
      var s := p.sectorOf[p.ranked[i].symbol];
      assert |p.OfSector(p.Kept(i), s)| == Min(p.perSector, NamesOf(p, s, i));
    }
  }

  /** How many names the walk has kept after i positions: as many as there are places, up to the cap. */
  lemma {:induction false} KeptCount(p: Problem, i: nat)
    requires p.perSector >= 0 && i <= |p.ranked|
    ensures |p.Kept(i)| == Min(Cap(p), Demand(p, i))
    ensures |p.Kept(i)| < Cap(p) ==> SectorsFilled(p, i)
  {
    hide Problem.Kept, SectorsFilled, Problem.Takes, Places, Entitled;
    if i == 0 {
      NothingKept(p);
      NothingFilled(p);
      NoPlaces(p, p.sectorOf.Values);
    } else {
      var j := i - 1;
      KeptCount(p, j);
      KeptNext(p, j);
      DemandStep(p, j);
      if |p.Kept(j)| < Cap(p) {
        FilledTakes(p, j);
        FilledStep(p, j);
      } else {
        RefusesWhenFull(p, j);
      }
    }
  }

  lemma RefusesWhenFull(p: Problem, j: nat)
    requires j < |p.ranked| && |p.Kept(j)| >= Cap(p)
    ensures !p.Takes(p.Kept(j), j)
  {
  }

  /** The choice in closed form: a name is picked exactly when it is among the first perSector of its
      sector and the places for the names before it do not fill the overall cap. */
  lemma {:induction false} ChosenIff(p: Problem, j: nat)
    requires p.perSector >= 0 && j < |p.ranked|
    ensures j in p.Chosen() <==> Entitled(p, j) && Demand(p, j) < Cap(p)
  {
    hide Problem.Kept, SectorsFilled, Problem.Takes, Places, Entitled;
    KeptCount(p, j);
    KeptNext(p, j);
    if |p.Kept(j)| < Cap(p) {
      FilledTakes(p, j);
    } else {
      RefusesWhenFull(p, j);
    }
    KeptDecided(p, j, |p.ranked|);
  }

  /** Whether position j is kept is decided when the walk passes it. */
  lemma {:induction false} KeptDecided(p: Problem, j: nat, n: nat)
    requires j < n <= |p.ranked|
    ensures j in p.Kept(n) <==> j in p.Kept(j) || p.Takes(p.Kept(j), j)
    ensures j !in p.Kept(j)
    decreases n
  {
    hide Problem.Takes;
    KeptNext(p, n - 1);
    if j < n - 1 {
      KeptDecided(p, j, n - 1);
    }
  }

  /** Position f holds the best name of its sector. */
  ghost predicate First(p: Problem, f: nat) {
    p.Sectored(f) && NamesOf(p, p.sectorOf[p.ranked[f].symbol], f) == 0
  }

  /** A sector goes without a name exactly when the places for the names before its first one already
      fill the overall cap. */
  lemma SectorLeftOutIff(p: Problem, f: nat)
    requires p.maxNames >= 1 && p.perSector >= 1 && f < |p.ranked| && First(p, f)
    ensures p.OfSector(p.Chosen(), p.sectorOf[p.ranked[f].symbol]) == {} <==> Demand(p, f) >= p.maxNames
  {
    hide Problem.Kept, Places;
    var s, chosen := p.sectorOf[p.ranked[f].symbol], p.Chosen();
    ChosenIff(p, f);
    if f in chosen {
      assert f in p.OfSector(chosen, s);
    } else {
      forall j | j in chosen ensures !p.InSector(j, s) {
        ChosenIff(p, j);
        if p.InSector(j, s) {
          if j < f {
            NamesCounted(p, s, j, f);
          } else {
            DemandGrows(p, f, j);
          }
        }
      }
      assert p.OfSector(chosen, s) == {};
    }
  }

  lemma {:induction false} NamesCounted(p: Problem, s: string, j: nat, i: nat)
    requires j < i <= |p.ranked| && p.InSector(j, s)
    ensures NamesOf(p, s, i) >= 1
    decreases i
  {
    if j < i - 1 {
      NamesCounted(p, s, j, i - 1);
    }
  }

  /** The order the docstring promises: every sector's first name is picked, and listed before any second. */
  ghost predicate FirstsThenSeconds(p: Problem) {
    forall f: nat, j: nat :: f < |p.ranked| && First(p, f) && j in p.Chosen() && !First(p, j) ==>
      f in p.Chosen() && f < j
  }

  /** What a caller can read off the ranking: a second name that has its place before the cap is filled
      is ranked before another sector's first. */
  ghost predicate SecondComesFirst(p: Problem, f: nat, j: nat) {
    j < f < |p.ranked| && First(p, f) && !First(p, j) && Entitled(p, j) && Demand(p, j) < p.maxNames
  }

  /** The promised order is kept exactly when no second name comes first. */
  lemma FirstsThenSecondsIff(p: Problem)
    requires p.maxNames >= 1 && p.perSector >= 1
    ensures FirstsThenSeconds(p) <==> !exists f: nat, j: nat :: SecondComesFirst(p, f, j)
  {
    hide Problem.Kept, Places, NamesOf;
    forall j: nat | j < |p.ranked| ensures j in p.Chosen() <==> Entitled(p, j) && Demand(p, j) < Cap(p) {
      ChosenIff(p, j);
    }
    ChosenInRange(p);
    if f: nat, j: nat :| SecondComesFirst(p, f, j) {
      assert j in p.Chosen() && !(f < j);
    }
    if f: nat, j: nat :| f < |p.ranked| && First(p, f) && j in p.Chosen() && !First(p, j)
                         && !(f in p.Chosen() && f < j) {
      if f < j {
        DemandGrows(p, f, j);
      }
      assert SecondComesFirst(p, f, j);
    }
  }

  /** The weaker order: no sector gets a second name while another goes without. */
  ghost predicate FirstsBeforeSeconds(p: Problem) {
    forall f: nat, j: nat :: f < |p.ranked| && First(p, f) && j in p.Chosen() && !First(p, j) ==> f in p.Chosen()
  }

  /** What a caller can read off the ranking: a second name has its place before the cap is filled,
      and some sector's first name comes only after that. */
  ghost predicate SecondCrowdsOut(p: Problem, f: nat, j: nat) {
    && f < |p.ranked| && First(p, f) && Demand(p, f) >= p.maxNames
    && j < |p.ranked| && !First(p, j) && Entitled(p, j) && Demand(p, j) < p.maxNames
  }

  /** That order is kept exactly when no second name crowds out a first one. */
  lemma FirstsBeforeSecondsIff(p: Problem)
    requires p.maxNames >= 1 && p.perSector >= 1
    ensures FirstsBeforeSeconds(p) <==> !exists f: nat, j: nat :: SecondCrowdsOut(p, f, j)
  {
    hide Problem.Kept, Places, NamesOf;
    forall j: nat | j < |p.ranked| ensures j in p.Chosen() <==> Entitled(p, j) && Demand(p, j) < Cap(p) {
      ChosenIff(p, j);
    }
    ChosenInRange(p);
    if f: nat, j: nat :| SecondCrowdsOut(p, f, j) {
      assert j in p.Chosen() && f !in p.Chosen();
    }
    if f: nat, j: nat :| f < |p.ranked| && First(p, f) && j in p.Chosen() && !First(p, j) && f !in p.Chosen() {
      assert SecondCrowdsOut(p, f, j);
    }
  }

  lemma ChosenInRange(p: Problem)
    ensures forall j :: j in p.Chosen() ==> 0 <= j < |p.ranked|
  {
  }

  /** A ranking in which the two best names share a sector. */
  function Rivals(maxNames: int): Problem {
    Problem([Asset("A", 3.0), Asset("B", 2.0), Asset("C", 1.0)], map["A" := "x", "B" := "x", "C" := "y"], maxNames, 2)
  }

  lemma RivalSectors(m: int)
    ensures Rivals(m).Sectored(0) && Rivals(m).Sectored(1) && Rivals(m).Sectored(2)
    ensures Rivals(m).sectorOf[Rivals(m).ranked[0].symbol] == Rivals(m).sectorOf[Rivals(m).ranked[1].symbol] == "x"
    ensures Rivals(m).sectorOf[Rivals(m).ranked[2].symbol] == "y"
    ensures |Rivals(m).ranked| == 3 && Rivals(m).maxNames == m && Rivals(m).perSector == 2
  {
  }

  lemma RivalNames(m: int)
    ensures NamesOf(Rivals(m), "x", 0) == 0 && NamesOf(Rivals(m), "x", 1) == 1 && NamesOf(Rivals(m), "y", 2) == 0
  {
  }

  /** Where the three names stand: each is entitled, the second has one place before it, the third two. */
  lemma RivalPlaces(m: int)
    requires m >= 1
    ensures var p := Rivals(m);
            && First(p, 0) && !First(p, 1) && First(p, 2) && Entitled(p, 0) && Entitled(p, 1) && Entitled(p, 2)
            && Demand(p, 0) == 0 && Demand(p, 1) == 1 && Demand(p, 2) == 2
  {
    RivalSectors(m);
    RivalNames(m);
    hide Problem.Sectored, Places, NamesOf, Rivals;
    NoPlaces(Rivals(m), Rivals(m).sectorOf.Values);
    DemandStep(Rivals(m), 0);
    DemandStep(Rivals(m), 1);
  }

  /** The walk is one pass by score. With room for two, the second name of one sector takes the place of
      the first of the other; with room for all, it is still picked and listed before it. */
  lemma SecondBeforeFirst()
    ensures Rivals(2).Chosen() == {0, 1} && !FirstsBeforeSeconds(Rivals(2)) && !FirstsThenSeconds(Rivals(2))
    ensures Rivals(10).Chosen() == {0, 1, 2} && FirstsBeforeSeconds(Rivals(10)) && !FirstsThenSeconds(Rivals(10))
  {
    RivalOrder(2);
    RivalOrder(10);
  }

  lemma RivalOrder(m: int)
    requires m >= 2
    ensures Rivals(m).Chosen() == if m == 2 then {0, 1} else {0, 1, 2}
    ensures FirstsBeforeSeconds(Rivals(m)) <==> m > 2
    ensures !FirstsThenSeconds(Rivals(m))
  {
    RivalSectors(m);
    RivalPlaces(m);
    RivalChosen(m);
    hide Problem.Chosen, Problem.Sectored, Demand, First, Rivals;
    var p := Rivals(m);
    var chosen := p.Chosen();
    assert forall j :: j in chosen <==> j in if m == 2 then {0, 1} else {0, 1, 2};
    assert First(p, 2) && 1 in chosen && !First(p, 1);
    if m > 2 {
      assert forall f: nat :: f < |p.ranked| ==> f in chosen;
    }
  }

  lemma RivalChosen(m: int)
    requires m >= 1
    ensures forall j :: j in Rivals(m).Chosen() <==> 0 <= j < 3 && j < m
  {
    var p := Rivals(m);
    hide Problem.Kept, Problem.Chosen, Problem.Sectored, Demand, First, Entitled;
    RivalPlaces(m);
    ChosenIff(p, 0);
    ChosenIff(p, 1);
    ChosenIff(p, 2);
    ChosenInRange(p);
    forall j ensures j in p.Chosen() <==> 0 <= j < 3 && j < m {
      assert j == 0 || j == 1 || j == 2 || !(0 <= j < 3);
    }
  }

  lemma KeptNext(p: Problem, i: nat)
    requires i < |p.ranked|
    ensures i == 0 ==> p.Kept(i) == {}
    ensures p.Kept(i + 1) == if p.Takes(p.Kept(i), i) then p.Kept(i) + {i} else p.Kept(i)
    ensures i !in p.Kept(i)
  {
  }

  // ----- the greedy choice is optimal -----

  /** While the overall cap is not reached, every sector is used at least as much as by any
      feasible choice, prefix by prefix. */
  lemma {:induction false} SectorDominates(p: Problem, choice: set<int>, i: nat, s: string)
    requires p.Feasible(choice) && i <= |p.ranked|
    requires |p.Kept(i)| < p.maxNames
    ensures |p.OfSector(Below(choice, i), s)| <= |p.OfSector(p.Kept(i), s)|
  {
    hide Problem.Kept, Problem.OfSector;
    if i == 0 {
      NoneOfSector(p, choice, s);
    } else {
      var j := i - 1;
      KeptStep(p, j);
      SectorDominates(p, choice, j, s);
      OneMoreOfSector(p, Below(choice, j), j, s);
      OneMoreOfSector(p, p.Kept(j), j, s);
      if p.InSector(j, s) && j !in p.Kept(i) {
        RefusedAtCap(p, j);
        MoreOfSector(p, Below(choice, i), choice, s);
      } else if j in choice {
        assert Below(choice, i) == Below(choice, j) + {j};
      } else {
        assert Below(choice, i) == Below(choice, j);
      }
    }
  }

  lemma NoneOfSector(p: Problem, choice: set<int>, s: string)
    requires forall j :: j in choice ==> p.Sectored(j)
    ensures p.OfSector(Below(choice, 0), s) == {}
  {
  }

  lemma OneMoreOfSector(p: Problem, a: set<int>, j: int, s: string)
    requires j !in a
    ensures |p.OfSector(a + {j}, s)| == |p.OfSector(a, s)| + (if p.InSector(j, s) then 1 else 0)
  {
    if p.InSector(j, s) {
      assert p.OfSector(a + {j}, s) == p.OfSector(a, s) + {j};
    } else {
      assert p.OfSector(a + {j}, s) == p.OfSector(a, s);
    }
  }

  lemma MoreOfSector(p: Problem, a: set<int>, b: set<int>, s: string)
    requires a <= b
    ensures |p.OfSector(a, s)| <= |p.OfSector(b, s)|
  {
    SmallerSet(p.OfSector(a, s), p.OfSector(b, s));
  }

  /** A name not kept while the overall cap has room finds its sector full. */
  lemma RefusedAtCap(p: Problem, j: nat)
    requires j < |p.ranked| && p.Sectored(j) && j !in p.Kept(j + 1) && |p.Kept(j + 1)| < p.maxNames
    ensures |p.OfSector(p.Kept(j + 1), p.sectorOf[p.ranked[j].symbol])| >= p.perSector
  {
  }

  lemma Pick<T>(a: set<T>) returns (x: T)
    requires a != {}
    ensures x in a
  {
    x :| x in a;
  }

  /** A set that is no larger sector by sector is no larger, over any set of sectors. */
  lemma {:induction false} SumOverSectors(p: Problem, a: set<int>, b: set<int>, sectors: set<string>)
    requires forall s :: |p.OfSector(a, s)| <= |p.OfSector(b, s)|
    requires forall j :: j in a ==> p.Sectored(j) && p.sectorOf[p.ranked[j].symbol] in sectors
    ensures |a| <= |b|
    decreases sectors
  {
    if a != {} {
      var j := Pick(a);
      var s := p.sectorOf[p.ranked[j].symbol];
      var a', b' := a - p.OfSector(a, s), b - p.OfSector(b, s);
      WithoutSector(p, a, s);
      WithoutSector(p, b, s);
      SumOverSectors(p, a', b', sectors - {s});
      assert a == a' + p.OfSector(a, s);
      assert b == b' + p.OfSector(b, s);
    }
  }

  lemma WithoutSector(p: Problem, a: set<int>, s: string)
    ensures forall r :: p.OfSector(a - p.OfSector(a, s), r) == if r == s then {} else p.OfSector(a, r)
  {
    forall r ensures p.OfSector(a - p.OfSector(a, s), r) == if r == s then {} else p.OfSector(a, r) {
    }
  }

  /** Among the first i positions the greedy walk keeps at least as many as any feasible choice. */
  lemma PrefixDominates(p: Problem, choice: set<int>, i: nat)
    requires p.Feasible(choice) && i <= |p.ranked|
    ensures |Below(choice, i)| <= |p.Kept(i)|
  {
    if |p.Kept(i)| >= p.maxNames {
      SmallerSet(Below(choice, i), choice);
    } else {
      forall s ensures |p.OfSector(Below(choice, i), s)| <= |p.OfSector(p.Kept(i), s)| {
        SectorDominates(p, choice, i, s);
      }
      SumOverSectors(p, Below(choice, i), p.Kept(i), p.sectorOf.Values);
    }
  }

  lemma ScoreFrame(p: Problem, a: set<int>, b: set<int>, i: nat)
    requires i <= |p.ranked|
    requires forall j :: 0 <= j < i ==> (j in a <==> j in b)
    ensures p.Score(a, i) == p.Score(b, i)
  {
  }

  /** How far the greedy walk is ahead of a choice after i positions, in names. */
  ghost function Lead(p: Problem, choice: set<int>, i: nat): int
    requires i <= |p.ranked|
  {
    |p.Kept(i)| - |Below(choice, i)|
  }

  ghost function Gap(p: Problem, choice: set<int>, i: nat): real
    requires i <= |p.ranked|
  {
    p.Score(p.Kept(i), i) - p.Score(choice, i)
  }

  /** One position moves the lead by at most one name and the gap by that name's score. */
  ghost predicate Moves(gap: real, gap': real, lead: int, lead': int, score: real) {
    || (lead' == lead && gap' == gap)
    || (lead' == lead + 1 && gap' == gap + score)
    || (lead' == lead - 1 && gap' == gap - score)
  }

  lemma KeptStep(p: Problem, j: nat)
    requires j < |p.ranked|
    ensures p.Kept(j + 1) == p.Kept(j) || p.Kept(j + 1) == p.Kept(j) + {j}
    ensures |p.Kept(j + 1)| == |p.Kept(j)| + (if j in p.Kept(j + 1) then 1 else 0)
    ensures p.Score(p.Kept(j + 1), j + 1)
            == p.Score(p.Kept(j), j) + (if j in p.Kept(j + 1) then p.ranked[j].score else 0.0)
  {
    hide Problem.OfSector, Problem.Takes;
    ScoreFrame(p, p.Kept(j + 1), p.Kept(j), j);
  }

  lemma ScoreStep(p: Problem, choice: set<int>, j: nat)
    requires j < |p.ranked|
    ensures p.Score(choice, j + 1) == p.Score(choice, j) + (if j in choice then p.ranked[j].score else 0.0)
  {
  }

  lemma GapStep(p: Problem, choice: set<int>, j: nat)
    requires j < |p.ranked|
    ensures Moves(Gap(p, choice, j), Gap(p, choice, j + 1), Lead(p, choice, j), Lead(p, choice, j + 1),
                  p.ranked[j].score)
  {
    hide Problem.Kept, Problem.OfSector, Problem.Score;
    KeptStep(p, j);
    ScoreStep(p, choice, j);
    assert Below(choice, j + 1) == Below(choice, j) + (if j in choice then {j} else {});
  }

  /** n times x, by repeated addition. */
  ghost function Times(n: nat, x: real): real {
    if n == 0 then 0.0 else Times(n - 1, x) + x
  }

  lemma TimesMonotone(n: nat, x: real, y: real)
    requires x >= y
    ensures Times(n, x) >= Times(n, y)
  {
  }

  lemma TimesZero(n: nat)
    ensures Times(n, 0.0) == 0.0
  {
  }

  /** Summation by parts: a gap that follows a non-negative lead, each move weighted by descending
      scores, is at least the lead times the last score. */
  lemma {:induction false} ByParts(gap: seq<real>, lead: seq<nat>, score: seq<real>, n: nat)
    requires |gap| == |lead| == |score| + 1 && 1 <= n <= |score|
    requires gap[0] == 0.0 && lead[0] == 0
    requires forall i :: 0 <= i < |score| ==> Moves(gap[i], gap[i + 1], lead[i], lead[i + 1], score[i])
    requires forall i, j :: 0 <= i < j < |score| ==> score[i] >= score[j]
    ensures gap[n] >= Times(lead[n], score[n - 1])
  {
    var j, x := n - 1, score[n - 1];
    assert Moves(gap[j], gap[j + 1], lead[j], lead[j + 1], x);
    if j > 0 {
      ByParts(gap, lead, score, j);
      TimesMonotone(lead[j], score[j - 1], x);
    }
  }

  lemma LevelAtStart(p: Problem, choice: set<int>)
    requires p.Feasible(choice)
    ensures Gap(p, choice, 0) == 0.0 && Lead(p, choice, 0) == 0
  {
    assert Below(choice, 0) == {};
  }

  /** No choice within the caps scores more than the greedy one. */
  lemma GreedyOptimal(p: Problem, choice: set<int>)
    requires p.ScoreDescending() && p.ScoresNonNegative()
    requires p.Feasible(choice)
    ensures p.Score(choice, |p.ranked|) <= p.Score(p.Chosen(), |p.ranked|)
  {
    hide Problem.Kept, Problem.Score, Problem.OfSector, Problem.Feasible, Below, Moves, Times;
    var n := |p.ranked|;
    LevelAtStart(p, choice);
    if n > 0 {
      forall i: nat | i <= n ensures Lead(p, choice, i) >= 0 {
        PrefixDominates(p, choice, i);
      }
      var gap := seq(n + 1, i requires 0 <= i <= n => Gap(p, choice, i));
      var lead: seq<nat> := seq(n + 1, i requires 0 <= i <= n => Lead(p, choice, i));
      var score := seq(n, i requires 0 <= i < n => p.ranked[i].score);
      forall i | 0 <= i < n ensures Moves(gap[i], gap[i + 1], lead[i], lead[i + 1], score[i]) {
        GapStep(p, choice, i);
      }
      ByParts(gap, lead, score, n);
      TimesMonotone(lead[n], score[n - 1], 0.0);
      TimesZero(lead[n]);
      assert gap[n] == Gap(p, choice, n);
    }
  }
}
