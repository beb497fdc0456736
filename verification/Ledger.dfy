/** The call tracker's read-modify-publish runs over shared ledger paths (ops/call_tracker.py).
    Publishing is one atomic step here: AtomicFile proves that a crash leaves the old or the new file. */
module Ledger {
  import opened Options

  datatype Observation = Observation(at: int, price: real)

  datatype Record = Record(
    id: string, thirdParty: bool, entry: Option<real>, observations: seq<Observation>)

  type Ledger = map<string, Record>

  /** What the network gave a run: the calls it scraped, the entry prices it could recover, and the
      price snapshots, stamped with the run's start. */
  datatype Input = Input(calls: seq<Record>, recovered: map<string, real>, snapshots: map<string, Observation>)

  /** A scraped call enters without entry price or observations. */
  function Fresh(call: Record): Record {
    call.(entry := None, observations := [])
  }

  /** New calls are added, known ones left alone. */
  function WithCalls(ledger: Ledger, calls: seq<Record>): Ledger {
    if calls == [] then ledger
    else
      var before := WithCalls(ledger, calls[..|calls| - 1]);
      var call := calls[|calls| - 1];
      if call.id in before then before else before[call.id := Fresh(call)]
  }

  /** One record after a run: its entry price is filled in if still unknown, and a snapshot is appended
      if its price differs from the last one. Records that are not third-party are left alone. */
  function Observed(r: Record, input: Input): Record {
    if !r.thirdParty then r
    else
      var entry := if r.entry.None? && r.id in input.recovered then Some(input.recovered[r.id]) else r.entry;
      var observations :=
        if r.id in input.snapshots
           && (r.observations == [] || input.snapshots[r.id].price != r.observations[|r.observations| - 1].price)
        then r.observations + [input.snapshots[r.id]] else r.observations;
      r.(entry := entry, observations := observations)
  }

  function Revised(ledger: Ledger, input: Input): Ledger {
    var known := WithCalls(ledger, input.calls);
    map id | id in known :: Observed(known[id], input)
  }

  /** The ledger dictionary of one run, changed in place. */
  class Tracker {
    var ledger: Ledger

    constructor (ledger: Ledger)
      ensures this.ledger == ledger
    {
      this.ledger := ledger;
    }

    method Revise(input: Input)
      modifies this
      ensures ledger == Revised(old(ledger), input)
    {
      for i := 0 to |input.calls|
        invariant ledger == WithCalls(old(ledger), input.calls[..i])
      {
        assert input.calls[..i + 1][..i] == input.calls[..i];
        var call := input.calls[i];
        if call.id !in ledger {
          ledger := ledger[call.id := Fresh(call)];
        }
      }
      assert input.calls[..|input.calls|] == input.calls;
      var todo := ledger.Keys;
      ghost var known := ledger;
      while todo != {}
        invariant ledger.Keys == known.Keys && todo <= known.Keys
        invariant forall id :: id in known ==>
                    ledger[id] == if id in todo then known[id] else Observed(known[id], input)
        decreases |todo|
      {
        var id: string :| id in todo;
        ledger := ledger[id := Observed(ledger[id], input)];
        todo := todo - {id};
      }
    }
  }

  // ----- what a run may do to a ledger -----

  /** Nothing is lost: records stay, keep their class and known entry price, and their observation
      lists only get longer at the end. */
  ghost predicate Grows(a: Ledger, b: Ledger) {
    forall id :: id in a ==>
      && id in b
      && b[id].thirdParty == a[id].thirdParty
      && (a[id].entry.Some? ==> b[id].entry == a[id].entry)
      && a[id].observations <= b[id].observations
  }

  lemma GrowsTransitive(a: Ledger, b: Ledger, c: Ledger)
    requires Grows(a, b) && Grows(b, c)
    ensures Grows(a, c)
  {
    forall id | id in a
      ensures id in c && c[id].thirdParty == a[id].thirdParty
      ensures a[id].entry.Some? ==> c[id].entry == a[id].entry
      ensures a[id].observations <= c[id].observations
    {
      assert a[id].observations <= b[id].observations <= c[id].observations;
    }
  }

  lemma {:induction false} CallsGrow(ledger: Ledger, calls: seq<Record>)
    ensures forall id :: id in ledger ==> id in WithCalls(ledger, calls) && WithCalls(ledger, calls)[id] == ledger[id]
  {
    if calls != [] {
      CallsGrow(ledger, calls[..|calls| - 1]);
    }
  }

  /** A run only adds records and appends observations. */
  lemma RevisedGrows(ledger: Ledger, input: Input)
    ensures Grows(ledger, Revised(ledger, input))
  {
    CallsGrow(ledger, input.calls);
  }

  lemma {:induction false} CallsKnown(ledger: Ledger, calls: seq<Record>, id: string)
    ensures id in WithCalls(ledger, calls) <==> id in ledger || exists k :: 0 <= k < |calls| && calls[k].id == id
    ensures id in WithCalls(ledger, calls) && id !in ledger ==>
              exists k :: 0 <= k < |calls| && calls[k].id == id && (forall j :: 0 <= j < k ==> calls[j].id != id)
                          && WithCalls(ledger, calls)[id] == Record(id, calls[k].thirdParty, None, [])
  {
    if calls != [] {
      var n := |calls| - 1;
      var front := calls[..n];
      CallsKnown(ledger, front, id);
      assert forall k :: 0 <= k < n ==> front[k] == calls[k];
    }
  }

  /** What a price snapshot adds to a list of observations: itself, if there is one and it is the first or
      its price differs from the last one's. */
  ghost predicate Noted(before: seq<Observation>, after: seq<Observation>, snapshots: map<string, Observation>, id: string) {
    if id in snapshots && (before == [] || snapshots[id].price != before[|before| - 1].price)
    then after == before + [snapshots[id]] else after == before
  }

  /** What a run does to a known record: to none that is not third-party; otherwise an unknown entry price
      is filled in if it could be recovered and no known one changes, and a changed price is appended. */
  lemma RevisedRecord(ledger: Ledger, input: Input, id: string)
    requires id in ledger
    ensures id in Revised(ledger, input)
    ensures var was, now := ledger[id], Revised(ledger, input)[id];
            && now.id == was.id && now.thirdParty == was.thirdParty
            && (!was.thirdParty ==> now == was)
            && (was.thirdParty ==>
                  && (was.entry.Some? || was.id !in input.recovered ==> now.entry == was.entry)
                  && (was.entry.None? && was.id in input.recovered ==> now.entry == Some(input.recovered[was.id]))
                  && Noted(was.observations, now.observations, input.snapshots, was.id))
  {
    CallsGrow(ledger, input.calls);
  }

  /** A run knows exactly the records it had and the calls it scraped; a new one enters as its first scrape
      describes it, and is priced at once if it is third-party. */
  lemma RevisedKnows(ledger: Ledger, input: Input, id: string)
    ensures id in Revised(ledger, input) <==> id in ledger || exists k :: 0 <= k < |input.calls| && input.calls[k].id == id
    ensures id in Revised(ledger, input) && id !in ledger ==>
              exists k :: 0 <= k < |input.calls| && input.calls[k].id == id
                          && (forall j :: 0 <= j < k ==> input.calls[j].id != id)
                          && var call, now := input.calls[k], Revised(ledger, input)[id];
                             && now.id == id && now.thirdParty == call.thirdParty
                             && (!call.thirdParty ==> now.entry == None && now.observations == [])
                             && (call.thirdParty ==>
                                   && (now.entry == if id in input.recovered then Some(input.recovered[id]) else None)
                                   && Noted([], now.observations, input.snapshots, id))
  {
    CallsKnown(ledger, input.calls, id);
  }

  /** No observation repeats the price before it. */
  ghost predicate Changing(observations: seq<Observation>) {
    forall i :: 1 <= i < |observations| ==> observations[i].price != observations[i - 1].price
  }

  ghost predicate AllChanging(ledger: Ledger) {
    forall id :: id in ledger ==> Changing(ledger[id].observations)
  }

  lemma {:induction false} CallsChanging(ledger: Ledger, calls: seq<Record>)
    requires AllChanging(ledger)
    ensures AllChanging(WithCalls(ledger, calls))
  {
    if calls != [] {
      CallsChanging(ledger, calls[..|calls| - 1]);
    }
  }

  /** Runs keep every observation list free of repeated prices. */
  lemma RevisedChanging(ledger: Ledger, input: Input)
    requires AllChanging(ledger)
    ensures AllChanging(Revised(ledger, input))
  {
    CallsChanging(ledger, input.calls);
  }

  // ----- interleaved runs -----

  /** A run between its lock and its end: it holds the lock files of both its paths. */
  datatype Run =
    | Locked(source: string, target: string)
    | Loaded(source: string, target: string, copy: Ledger)
    | Published(source: string, target: string)

  datatype State = State(files: map<string, Ledger>, runs: map<nat, Run>) {
    /** What reading a path gives; an absent file is an empty ledger. */
    function File(path: string): Ledger {
      if path in files then files[path] else map[]
    }

    predicate Free(path: string) {
      forall r :: r in runs ==> runs[r].source != path && runs[r].target != path
    }
  }

  datatype Step =
    | Start(r: nat, source: string, target: string)
    | Load(r: nat)
    | Revise(r: nat, input: Input)
    | Publish(r: nat)
    | End(r: nat)
    | Crash(r: nat)

  predicate Enabled(s: State, step: Step) {
    match step
    case Start(r, source, target) => r !in s.runs && s.Free(source) && s.Free(target)
    case Load(r) => r in s.runs && s.runs[r].Locked?
    case Revise(r, _) => r in s.runs && s.runs[r].Loaded?
    case Publish(r) => r in s.runs && s.runs[r].Loaded?
    case End(r) => r in s.runs && s.runs[r].Published?
    case Crash(r) => r in s.runs
  }

  function Next(s: State, step: Step): State
    requires Enabled(s, step)
  {
    match step
    case Start(r, source, target) => s.(runs := s.runs[r := Locked(source, target)])
    case Load(r) =>
      var Locked(source, target) := s.runs[r];
      s.(runs := s.runs[r := Loaded(source, target, s.File(source))])
    case Revise(r, input) =>
      var Loaded(source, target, copy) := s.runs[r];
      s.(runs := s.runs[r := Loaded(source, target, Revised(copy, input))])
    case Publish(r) =>
      var Loaded(source, target, copy) := s.runs[r];
      s.(files := s.files[target := copy], runs := s.runs[r := Published(source, target)])
    case End(r) => s.(runs := s.runs - {r})
    case Crash(r) => s.(runs := s.runs - {r})
  }

  ghost predicate ValidRun(s: State, steps: seq<Step>)
    decreases |steps|
  {
    steps == [] || (Enabled(s, steps[0]) && ValidRun(Next(s, steps[0]), steps[1..]))
  }

  ghost function Final(s: State, steps: seq<Step>): State
    requires ValidRun(s, steps)
    decreases |steps|
  {
    if steps == [] then s else Final(Next(s, steps[0]), steps[1..])
  }

  /** Runs in progress share no path, and a loaded copy extends the file it was read from. */
  ghost predicate Inv(s: State) {
    && (forall r, q :: r in s.runs && q in s.runs && r != q ==> Disjoint(s.runs[r], s.runs[q]))
    && (forall r :: r in s.runs && s.runs[r].Loaded? ==> Grows(s.File(s.runs[r].source), s.runs[r].copy))
  }

  predicate Disjoint(a: Run, b: Run) {
    a.source != b.source && a.source != b.target && a.target != b.source && a.target != b.target
  }

  lemma StepKeepsInv(s: State, step: Step)
    requires Inv(s) && Enabled(s, step)
    ensures Inv(Next(s, step))
  {
    hide Grows, Revised;
    var s' := Next(s, step);
    forall r | r in s'.runs && s'.runs[r].Loaded? ensures Grows(s'.File(s'.runs[r].source), s'.runs[r].copy) {
      match step {
        case Load(q) =>
          if q == r {
            GrowsReflexive(s'.runs[r].copy);
          }
        case Revise(q, input) =>
          if q == r {
            RevisedGrows(s.runs[r].copy, input);
            GrowsTransitive(s.File(s.runs[r].source), s.runs[r].copy, s'.runs[r].copy);
          }
        case Publish(q) =>
          assert Disjoint(s.runs[q], s.runs[r]);
        case _ =>
      }
    }
  }

  lemma GrowsReflexive(a: Ledger)
    ensures Grows(a, a)
  {
  }

  /** Every run of the trace that may write the path also reads it. */
  ghost predicate ReadBeforeWrite(s: State, steps: seq<Step>, path: string) {
    && (forall r :: r in s.runs && s.runs[r].target == path ==> s.runs[r].source == path)
    && (forall i :: 0 <= i < |steps| && steps[i].Start? && steps[i].target == path ==> steps[i].source == path)
  }

  lemma StepGrowsFile(s: State, step: Step, path: string)
    requires Inv(s) && Enabled(s, step)
    requires forall r :: r in s.runs && s.runs[r].target == path ==> s.runs[r].source == path
    ensures Grows(s.File(path), Next(s, step).File(path))
  {
    hide Grows, Revised;
    GrowsReflexive(s.File(path));
  }

  /** A run can crash at any moment, and its paths are free again. */
  lemma AnyMoment(s: State, r: nat)
    requires Inv(s) && r in s.runs
    ensures Enabled(s, Crash(r))
    ensures Next(s, Crash(r)).Free(s.runs[r].source) && Next(s, Crash(r)).Free(s.runs[r].target)
  {
    assert forall q :: q in s.runs && q != r ==> Disjoint(s.runs[q], s.runs[r]);
  }

  /** No lost observations: over any interleaving of runs and crashes, a ledger path whose writers also
      read it only ever grows; nothing recorded in it is ever dropped or rewritten. */
  lemma {:induction false} LedgerOnlyGrows(s: State, steps: seq<Step>, path: string)
    requires Inv(s) && ValidRun(s, steps) && ReadBeforeWrite(s, steps, path)
    ensures Grows(s.File(path), Final(s, steps).File(path))
    decreases |steps|
  {
    hide Grows, Inv;
    if steps == [] {
      GrowsReflexive(s.File(path));
    } else {
      var s' := Next(s, steps[0]);
      StepKeepsInv(s, steps[0]);
      StepGrowsFile(s, steps[0], path);
      assert forall r :: r in s'.runs && s'.runs[r].target == path ==> s'.runs[r].source == path;
      LedgerOnlyGrows(s', steps[1..], path);
      GrowsTransitive(s.File(path), s'.File(path), Final(s', steps[1..]).File(path));
    }
  }

  /** From any files with no run in progress, between any two moments of any trace. */
  lemma NoLostObservations(files: map<string, Ledger>, before: seq<Step>, after: seq<Step>, path: string)
    requires ValidRun(State(files, map[]), before)
    requires ValidRun(Final(State(files, map[]), before), after)
    requires ReadBeforeWrite(State(files, map[]), before, path) && ReadBeforeWrite(State(files, map[]), after, path)
    ensures var s := Final(State(files, map[]), before); Grows(s.File(path), Final(s, after).File(path))
  {
    var s := Final(State(files, map[]), before);
    ReachesInv(State(files, map[]), before, path);
    LedgerOnlyGrows(s, after, path);
  }

  lemma {:induction false} ReachesInv(s: State, steps: seq<Step>, path: string)
    requires Inv(s) && ValidRun(s, steps) && ReadBeforeWrite(s, steps, path)
    ensures Inv(Final(s, steps))
    ensures forall r :: r in Final(s, steps).runs && Final(s, steps).runs[r].target == path ==>
              Final(s, steps).runs[r].source == path
    decreases |steps|
  {
    hide Inv;
    if steps != [] {
      StepKeepsInv(s, steps[0]);
      ReachesInv(Next(s, steps[0]), steps[1..], path);
    }
  }

  // ----- separate input and output -----

  /** The runs of these steps all read one path and publish to another, or the same. */
  ghost predicate UsesOnly(steps: seq<Step>, source: string, target: string) {
    forall i :: 0 <= i < |steps| && steps[i].Start? ==> steps[i].source == source && steps[i].target == target
  }

  /** A trace of such runs from a moment with none in progress, cut in two. */
  ghost predicate Trace(files: map<string, Ledger>, before: seq<Step>, after: seq<Step>, source: string, target: string) {
    && ValidRun(State(files, map[]), before) && ValidRun(Final(State(files, map[]), before), after)
    && UsesOnly(before, source, target) && UsesOnly(after, source, target)
  }

  ghost predicate TargetGrows(files: map<string, Ledger>, before: seq<Step>, after: seq<Step>,
                              source: string, target: string)
    requires Trace(files, before, after, source, target)
  {
    var s := Final(State(files, map[]), before);
    Grows(s.File(target), Final(s, after).File(target))
  }

  const CALL: Record := Record("c", true, None, [])
  const SEEN: Input := Input([], map[], map["c" := Observation(0, 1.0)])
  const UNSEEN: Input := Input([], map[], map[])

  /** Two runs from one path to another, the second without a fresh snapshot. */
  function Split(source: string, target: string): (steps: seq<Step>)
    ensures |steps| == 10
  {
    [Start(0, source, target), Load(0), Revise(0, SEEN), Publish(0), End(0),
     Start(1, source, target), Load(1), Revise(1, UNSEEN), Publish(1), End(1)]
  }

  function SplitState(i: nat, source: string, target: string): State
    requires i <= 10
  {
    var original, observed := map["c" := CALL], map["c" := CALL.(observations := [Observation(0, 1.0)])];
    var files := if i < 4 then map[source := original]
                 else if i < 9 then map[source := original, target := observed]
                 else map[source := original, target := original];
    var k := if i <= 5 then i else i - 5;
    var r := if i <= 5 then 0 else 1;
    var runs := if k == 1 then map[r := Locked(source, target)]
                else if k == 2 || (k == 3 && r == 1) then map[r := Loaded(source, target, original)]
                else if k == 3 then map[r := Loaded(source, target, observed)]
                else if k == 4 then map[r := Run.Published(source, target)]
                else map[];
    State(files, runs)
  }

  lemma SplitRevisions()
    ensures Revised(map["c" := CALL], SEEN) == map["c" := CALL.(observations := [Observation(0, 1.0)])]
    ensures Revised(map["c" := CALL], UNSEEN) == map["c" := CALL]
  {
    var original := map["c" := CALL];
    assert WithCalls(original, SEEN.calls) == original && WithCalls(original, UNSEEN.calls) == original;
    assert CALL.observations + [Observation(0, 1.0)] == [Observation(0, 1.0)];
    assert Observed(CALL, SEEN).observations == [Observation(0, 1.0)];
    assert Observed(CALL, UNSEEN) == CALL;
    assert Revised(original, SEEN)["c"] == Observed(CALL, SEEN);
    assert Revised(original, SEEN).Keys == {"c"} == Revised(original, UNSEEN).Keys;
  }

  lemma SplitStep(i: nat, source: string, target: string)
    requires i < 10 && source != target
    ensures Enabled(SplitState(i, source, target), Split(source, target)[i])
    ensures Next(SplitState(i, source, target), Split(source, target)[i]) == SplitState(i + 1, source, target)
  {
    hide Revised;
    SplitRevisions();
  }

  lemma {:induction false} SplitRun(i: nat, j: nat, source: string, target: string)
    requires i <= j <= 10 && source != target
    ensures ValidRun(SplitState(i, source, target), Split(source, target)[i..j])
    ensures Final(SplitState(i, source, target), Split(source, target)[i..j]) == SplitState(j, source, target)
    decreases j - i
  {
    hide Next, Enabled, SplitState, Split;
    var steps := Split(source, target);
    if i < j {
      SplitStep(i, source, target);
      SplitRun(i + 1, j, source, target);
      assert steps[i..j][0] == steps[i] && steps[i..j][1..] == steps[i + 1..j];
    }
  }

  /** With separate input and output paths the second run drops from the output an observation the
      first one had published there. */
  lemma SplitPathsLoseObservations(source: string, target: string)
    requires source != target
    ensures var files := map[source := map["c" := CALL]];
            var before, after := Split(source, target)[0..5], Split(source, target)[5..10];
            Trace(files, before, after, source, target) && !TargetGrows(files, before, after, source, target)
  {
    hide Final, ValidRun;
    SplitRun(0, 5, source, target);
    SplitRun(5, 10, source, target);
    var was, now := SplitState(5, source, target).File(target), SplitState(10, source, target).File(target);
    assert "c" in was && |now["c"].observations| < |was["c"].observations|;
  }

  /** The tracker never loses anything from its output, whatever the trace, exactly when it reads the
      path it writes. */
  lemma NothingLostIffOnePath(source: string, target: string)
    ensures source == target <==>
            forall files, before, after ::
              Trace(files, before, after, source, target) ==> TargetGrows(files, before, after, source, target)
  {
    hide ValidRun, Final;
    if source == target {
      forall files, before, after | Trace(files, before, after, source, target)
        ensures TargetGrows(files, before, after, source, target)
      {
        NoLostObservations(files, before, after, target);
      }
    } else {
      SplitPathsLoseObservations(source, target);
    }
  }
}
