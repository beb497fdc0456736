/** Racing evaluations of one alert (src/omni/alerts/rules.py) and the notification batches enqueued
    with their firings (src/omni/alerts/notify.py). Claims are named by their ids. */
module Firing {

  /** The owner's delivery settings. */
  datatype Settings = Settings(webhook: bool, email: bool)

  datatype Channel = Webhook | Email

  /** One queued notification: a channel and the firings it tells about. */
  datatype Batch = Batch(channel: Channel, claims: seq<nat>)

  /** The channels dispatch enqueues for, in its order. */
  function Channels(settings: Settings): seq<Channel> {
    (if settings.webhook then [Webhook] else []) + (if settings.email then [Email] else [])
  }

  function Batches(channels: seq<Channel>, claims: seq<nat>): (batches: seq<Batch>)
    ensures |batches| == |channels|
  {
    seq(|channels|, i requires 0 <= i < |channels| => Batch(channels[i], claims))
  }

  /** The candidates that insert-or-nothing inserts, in order. */
  function Inserted(firings: set<nat>, candidates: seq<nat>): seq<nat> {
    if candidates == [] then []
    else
      var n := |candidates| - 1;
      var before := Inserted(firings, candidates[..n]);
      if candidates[n] in firings || candidates[n] in before then before else before + [candidates[n]]
  }

  function Elements(s: seq<nat>): set<nat> {
    set x | x in s
  }

  ghost predicate NoRepeats(s: seq<nat>) {
    forall i, j :: 0 <= i < j < |s| ==> s[i] != s[j]
  }

  lemma {:induction false} InsertedExactly(firings: set<nat>, candidates: seq<nat>)
    ensures Elements(Inserted(firings, candidates)) == Elements(candidates) - firings
    ensures NoRepeats(Inserted(firings, candidates))
  {
    if candidates != [] {
      var n := |candidates| - 1;
      InsertedExactly(firings, candidates[..n]);
      assert candidates == candidates[..n] + [candidates[n]];
      var before := Inserted(firings, candidates[..n]);
      assert forall x :: x in before <==> x in Elements(before);
      forall x ensures x in Elements(Inserted(firings, candidates)) <==> x in Elements(candidates) - firings {
        assert x in Elements(candidates) <==> x in Elements(candidates[..n]) || x == candidates[n];
      }
    }
  }

  /** The tables one firing transaction touches, for one alert. */
  class AlertBook {
    const oneShot: bool
    var firings: set<nat>
    var queue: seq<Batch>
    var demands: nat
    var active: bool

    constructor (oneShot: bool)
      ensures this.oneShot == oneShot && firings == {} && queue == [] && demands == 0 && active
    {
      this.oneShot := oneShot;
      firings, queue, demands, active := {}, [], 0, true;
    }

    /** The firing transaction: it reports exactly the rows it inserted, enqueues them once per
        channel, raises demand if its earlier read saw no firing, and disarms a one-shot alert; with
        nothing inserted it does nothing at all. */
    method Record(candidates: seq<nat>, sawNone: bool, settings: Settings) returns (fresh': seq<nat>)
      modifies this
      ensures fresh' == Inserted(old(firings), candidates)
      ensures firings == old(firings) + Elements(candidates)
      ensures queue == old(queue) + if fresh' == [] then [] else Batches(Channels(settings), fresh')
      ensures demands == old(demands) + if fresh' != [] && sawNone then 1 else 0
      ensures active == (old(active) && !(fresh' != [] && oneShot))
    {
      fresh' := [];
      ghost var before := firings;
      for i := 0 to |candidates|
        invariant fresh' == Inserted(before, candidates[..i])
        invariant firings == before + Elements(candidates[..i])
        invariant queue == old(queue) && demands == old(demands) && active == old(active)
      {
        assert candidates[..i + 1][..i] == candidates[..i];
        assert candidates[..i + 1] == candidates[..i] + [candidates[i]];
        InsertedExactly(before, candidates[..i]);
        assert candidates[i] in fresh' <==> candidates[i] in Elements(fresh');
        if candidates[i] !in firings {
          firings := firings + {candidates[i]};
          fresh' := fresh' + [candidates[i]];
        }
        assert Elements(candidates[..i + 1]) == Elements(candidates[..i]) + {candidates[i]};
      }
      assert candidates[..|candidates|] == candidates;
      if fresh' == [] {
        return;
      }
      if sawNone {
        demands := demands + 1;
      }
      Dispatch(fresh', settings);
      if oneShot {
        active := false;
      }
    }

    /** Enqueue one batch per configured channel. */
    method Dispatch(claims: seq<nat>, settings: Settings)
      modifies this`queue
      ensures queue == old(queue) + Batches(Channels(settings), claims)
    {
      if settings.webhook {
        queue := queue + [Batch(Webhook, claims)];
      }
      if settings.email {
        queue := queue + [Batch(Email, claims)];
      }
    }
  }

  // ----- racing evaluations -----

  /** An evaluation in flight: it has loaded the armed alert; then it has read the claims that satisfy
      the condition and the firings already recorded, both outside its transaction. `epoch` and `seen`
      count the firing transactions committed when it loaded the alert and when it read the firings. */
  datatype Evaluation =
    | Loaded(epoch: nat)
    | Read(epoch: nat, seen: nat, candidates: seq<nat>, already: set<nat>)

  /** A firing transaction that recorded something. */
  datatype Commit = Commit(eval: nat, epoch: nat, seen: nat, claims: seq<nat>, settings: Settings)

  datatype State = State(
    firings: set<nat>,
    queue: seq<Batch>,
    demands: nat,
    active: bool,
    settings: Settings,
    evals: map<nat, Evaluation>,
    observed: map<nat, seq<nat>>,
    returned: map<nat, seq<nat>>,
    commits: seq<Commit>)

  function Init(settings: Settings): State {
    State({}, [], 0, true, settings, map[], map[], map[], [])
  }

  datatype Step =
    | Load(e: nat)
    | Observe(e: nat, satisfying: seq<nat>)
    | Record(e: nat)
    | Crash(e: nat)
    | Configure(settings: Settings)

  predicate Enabled(s: State, step: Step) {
    match step
    case Load(e) => s.active && e !in s.evals && e !in s.returned
    case Observe(e, _) => e in s.evals && s.evals[e].Loaded?
    case Record(e) => e in s.evals && s.evals[e].Read?
    case Crash(e) => e in s.evals
    case Configure(_) => true
  }

  /** The satisfying claims not yet seen to have fired. */
  function Unfired(satisfying: seq<nat>, already: set<nat>): seq<nat> {
    if satisfying == [] then []
    else
      var n := |satisfying| - 1;
      var before := Unfired(satisfying[..n], already);
      if satisfying[n] in already then before else before + [satisfying[n]]
  }

  function Next(s: State, step: Step, oneShot: bool): State
    requires Enabled(s, step)
  {
    match step
    case Load(e) => s.(evals := s.evals[e := Loaded(|s.commits|)])
    case Observe(e, satisfying) =>
      var candidates := Unfired(satisfying, s.firings);
      var seen := s.(observed := s.observed[e := satisfying]);
      if candidates == [] then seen.(evals := s.evals - {e}, returned := s.returned[e := []])
      else seen.(evals := s.evals[e := Read(s.evals[e].epoch, |s.commits|, candidates, s.firings)])
    case Record(e) =>
      var Read(epoch, seen, candidates, already) := s.evals[e];
      var claims := Inserted(s.firings, candidates);
      var ended := s.(evals := s.evals - {e}, returned := s.returned[e := claims]);
      if claims == [] then ended
      else
        ended.(firings := s.firings + Elements(candidates),
               queue := s.queue + Batches(Channels(s.settings), claims),
               demands := s.demands + if already == {} then 1 else 0,
               active := s.active && !oneShot,
               commits := s.commits + [Commit(e, epoch, seen, claims, s.settings)])
    case Crash(e) => s.(evals := s.evals - {e})
    case Configure(settings) => s.(settings := settings)
  }

  ghost predicate ValidRun(s: State, steps: seq<Step>, oneShot: bool)
    decreases |steps|
  {
    steps == [] || (Enabled(s, steps[0]) && ValidRun(Next(s, steps[0], oneShot), steps[1..], oneShot))
  }

  ghost function Final(s: State, steps: seq<Step>, oneShot: bool): State
    requires ValidRun(s, steps, oneShot)
    decreases |steps|
  {
    if steps == [] then s else Final(Next(s, steps[0], oneShot), steps[1..], oneShot)
  }

  lemma ElementsAppend(s: seq<nat>, x: nat)
    ensures Elements(s + [x]) == Elements(s) + {x}
  {
  }

  /** The candidates are exactly the satisfying claims not yet seen to have fired. */
  lemma {:induction false} UnfiredExactly(satisfying: seq<nat>, already: set<nat>)
    ensures Elements(Unfired(satisfying, already)) == Elements(satisfying) - already
  {
    hide Elements;
    NoElements();
    if satisfying != [] {
      var n := |satisfying| - 1;
      UnfiredExactly(satisfying[..n], already);
      assert satisfying == satisfying[..n] + [satisfying[n]];
      ElementsAppend(satisfying[..n], satisfying[n]);
      ElementsAppend(Unfired(satisfying[..n], already), satisfying[n]);
    }
  }

  /** Each occurrence is kept, in the same order: `kept` are the positions. */
  lemma {:induction false} UnfiredInOrder(satisfying: seq<nat>, already: set<nat>) returns (kept: seq<nat>)
    ensures KeptFrom(satisfying, Unfired(satisfying, already), already, kept)
  {
    kept := [];
    if satisfying != [] {
      hide KeptFrom;
      var n := |satisfying| - 1;
      var known := UnfiredInOrder(satisfying[..n], already);
      kept := if satisfying[n] in already then known else known + [n];
      KeptOneMore(satisfying, Unfired(satisfying[..n], already), already, known);
    }
  }

  /** `kept` are the positions of the claims of `all` that are not in `already`, and `candidates` those claims. */
  ghost predicate KeptFrom(all: seq<nat>, candidates: seq<nat>, already: set<nat>, kept: seq<nat>) {
    && |kept| == |candidates|
    && (forall i :: 0 <= i < |kept| ==>
          kept[i] < |all| && all[kept[i]] !in already && candidates[i] == all[kept[i]])
    && (forall k: nat :: k < |all| && all[k] !in already ==> k in kept)
    && (forall i, j :: 0 <= i < j < |kept| ==> kept[i] < kept[j])
  }

  lemma KeptOneMore(all: seq<nat>, candidates: seq<nat>, already: set<nat>, known: seq<nat>)
    requires all != [] && KeptFrom(all[..|all| - 1], candidates, already, known)
    ensures var n := |all| - 1;
            if all[n] in already then KeptFrom(all, candidates, already, known)
            else KeptFrom(all, candidates + [all[n]], already, known + [n])
  {
    var n := |all| - 1;
    var front := all[..n];
    assert forall k: nat :: k < n ==> front[k] == all[k];
    forall k: nat | k < n && all[k] !in already ensures k in known && k in known + [n] {
      assert front[k] !in already;
    }
  }

  // ----- what an evaluation read has fired -----

  /** Whatever an evaluation read as satisfying has fired, or is a candidate of its; once it has returned
      all of it has fired. */
  ghost predicate ReadOne(s: State, e: nat) {
    && (e in s.evals ==> e !in s.returned)
    && (e in s.evals && s.evals[e].Read? ==>
          && e in s.observed && Elements(s.evals[e].candidates) <= Elements(s.observed[e])
          && Elements(s.observed[e]) <= s.firings + Elements(s.evals[e].candidates))
    && (e in s.returned ==>
          && e in s.observed && Elements(s.returned[e]) <= Elements(s.observed[e])
          && Elements(s.observed[e]) <= s.firings)
  }

  ghost predicate ReadInv(s: State) {
    forall e :: ReadOne(s, e)
  }

  lemma {:induction false} StepKeepsRead(s: State, step: Step, oneShot: bool)
    requires Enabled(s, step) && ReadInv(s)
    ensures ReadInv(Next(s, step, oneShot))
  {
    hide Inserted, Batches, Channels, Unfired, Elements;
    var s' := Next(s, step, oneShot);
    NoElements();
    forall e ensures ReadOne(s', e) {
      assert ReadOne(s, e);
      match step
      case Observe(x, satisfying) =>
        UnfiredExactly(satisfying, s.firings);
        ElementsOfNone(Unfired(satisfying, s.firings));
        if Unfired(satisfying, s.firings) == [] {
          NoneLeft(Elements(satisfying), s.firings);
        }
      case Record(x) =>
        assert ReadOne(s, x);
        RecordFires(s.firings, s.evals[x].candidates);
      case _ =>
    }
  }

  /** What is inserted comes from the candidates, and afterwards all of them have fired. */
  lemma RecordFires(firings: set<nat>, candidates: seq<nat>)
    ensures Elements(Inserted(firings, candidates)) <= Elements(candidates)
    ensures Inserted(firings, candidates) == [] ==> Elements(candidates) <= firings
  {
    hide Inserted, Elements;
    InsertedExactly(firings, candidates);
    ElementsOfNone(Inserted(firings, candidates));
    if Inserted(firings, candidates) == [] {
      NoneLeft(Elements(candidates), firings);
    }
  }

  lemma NoElements()
    ensures Elements([]) == {}
  {
  }

  lemma NoneLeft(a: set<nat>, b: set<nat>)
    requires a - b == {}
    ensures a <= b
  {
    forall x | x in a ensures x in b {
      assert x !in a - b;
    }
  }

  lemma ElementsOfNone(s: seq<nat>)
    ensures s == [] <==> Elements(s) == {}
  {
    if s != [] {
      assert s[0] in Elements(s);
    }
  }

  // ----- returned firings -----

  /** What evaluations return never overlaps, and together is exactly the firing table. */
  ghost predicate ReturnsInv(s: State) {
    && (forall e, f, c :: e in s.returned && f in s.returned && c in s.returned[e] && c in s.returned[f] ==> e == f)
    && (forall e, c :: e in s.returned && c in s.returned[e] ==> c in s.firings)
    && (forall c :: c in s.firings ==> exists e :: e in s.returned && c in s.returned[e])
    && s.evals.Keys !! s.returned.Keys
  }

  lemma StepKeepsReturns(s: State, step: Step, oneShot: bool)
    requires Enabled(s, step) && ReturnsInv(s)
    ensures ReturnsInv(Next(s, step, oneShot))
  {
    hide Inserted, Batches, Channels;
    var s' := Next(s, step, oneShot);
    if step.Record? {
      var candidates := s.evals[step.e].candidates;
      InsertedExactly(s.firings, candidates);
      var claims := s'.returned[step.e];
      assert forall c :: c in claims <==> c in Elements(claims);
    }
    forall c | c in s'.firings ensures exists e :: e in s'.returned && c in s'.returned[e] {
      if c in s.firings {
        var e :| e in s.returned && c in s.returned[e];
        assert e in s'.returned && c in s'.returned[e];
      } else {
        assert step.e in s'.returned && c in s'.returned[step.e];
      }
    }
  }

  // ----- batches -----

  /** How many queued batches on a channel cover a claim. */
  function Covering(queue: seq<Batch>, channel: Channel, claim: nat): nat {
    if queue == [] then 0
    else
      var b := queue[|queue| - 1];
      Covering(queue[..|queue| - 1], channel, claim) + if b.channel == channel && claim in b.claims then 1 else 0
  }

  /** How many firing transactions recorded a claim with a channel configured. */
  function Recorded(commits: seq<Commit>, channel: Channel, claim: nat): nat {
    if commits == [] then 0
    else
      var c := commits[|commits| - 1];
      Recorded(commits[..|commits| - 1], channel, claim)
      + if claim in c.claims && channel in Channels(c.settings) then 1 else 0
  }

  lemma {:induction false} CoveringAppend(queue: seq<Batch>, more: seq<Batch>, channel: Channel, claim: nat)
    ensures Covering(queue + more, channel, claim) == Covering(queue, channel, claim) + Covering(more, channel, claim)
  {
    if more == [] {
      assert queue + more == queue;
    } else {
      var n := |more| - 1;
      assert (queue + more)[..|queue + more| - 1] == queue + more[..n];
      CoveringAppend(queue, more[..n], channel, claim);
    }
  }

  /** Dispatch covers a new firing once on every configured channel and on no other. */
  lemma DispatchCoversOnce(settings: Settings, claims: seq<nat>, channel: Channel, claim: nat)
    ensures Covering(Batches(Channels(settings), claims), channel, claim)
            == if claim in claims && channel in Channels(settings) then 1 else 0
  {
    var batches := Batches(Channels(settings), claims);
    assert Covering(batches[..0], channel, claim) == 0;
    if |batches| == 2 {
      assert batches[..1][..0] == batches[..0];
    }
  }

  /** A claim has fired exactly when one transaction recorded it; the queue covers it once per channel
      configured in that transaction. */
  ghost predicate BatchesInv(s: State) {
    && (forall c :: c in s.firings <==> exists k :: 0 <= k < |s.commits| && c in s.commits[k].claims)
    && (forall j, k, c :: 0 <= j < k < |s.commits| && c in s.commits[j].claims ==> c !in s.commits[k].claims)
    && (forall channel, c :: Covering(s.queue, channel, c) == Recorded(s.commits, channel, c))
  }

  lemma StepKeepsBatches(s: State, step: Step, oneShot: bool)
    requires Enabled(s, step) && BatchesInv(s)
    ensures BatchesInv(Next(s, step, oneShot))
  {
    hide Inserted, Batches, Channels, Unfired, BatchesInv, Elements;
    var s' := Next(s, step, oneShot);
    if s'.commits != s.commits {
      CommitKeepsBatches(s, s'.commits[|s.commits|], s.evals[step.e].candidates);
    } else {
      SameBatches(s, s');
    }
  }

  lemma SameBatches(s: State, s': State)
    requires BatchesInv(s) && s'.firings == s.firings && s'.queue == s.queue && s'.commits == s.commits
    ensures BatchesInv(s')
  {
  }

  lemma CommitKeepsBatches(s: State, commit: Commit, candidates: seq<nat>)
    requires BatchesInv(s) && commit.claims == Inserted(s.firings, candidates) && commit.settings == s.settings
    ensures forall s': State ::
              (s'.firings == s.firings + Elements(candidates) && s'.commits == s.commits + [commit]
               && s'.queue == s.queue + Batches(Channels(s.settings), commit.claims)) ==> BatchesInv(s')
  {
    hide Inserted, Batches, Channels;
    var commits, n := s.commits + [commit], |s.commits|;
    var firings := s.firings + Elements(candidates);
    var queue := s.queue + Batches(Channels(s.settings), commit.claims);
    InsertedExactly(s.firings, candidates);
    assert forall c :: c in commit.claims <==> c in Elements(commit.claims);
    assert commits[..n] == s.commits;
    forall channel, c ensures Covering(queue, channel, c) == Recorded(commits, channel, c) {
      CoveringAppend(s.queue, Batches(Channels(s.settings), commit.claims), channel, c);
      DispatchCoversOnce(s.settings, commit.claims, channel, c);
    }
    forall c ensures c in firings <==> exists k :: 0 <= k < |commits| && c in commits[k].claims {
      if c in s.firings {
        var k :| 0 <= k < n && c in s.commits[k].claims;
        assert c in commits[k].claims;
      } else if c in firings {
        assert c in commits[n].claims;
      } else {
        assert forall k :: 0 <= k < n ==> c !in s.commits[k].claims;
      }
    }
  }

  // ----- demand -----

  /** How many firing transactions had read the firings before any of them committed. */
  function Early(commits: seq<Commit>): nat {
    if commits == [] then 0
    else Early(commits[..|commits| - 1]) + if commits[|commits| - 1].seen == 0 then 1 else 0
  }

  /** Firings seen are firings recorded, and there are none exactly before the first commit. */
  ghost predicate DemandInv(s: State) {
    && s.demands == Early(s.commits)
    && (s.commits == [] <==> s.firings == {})
    && (s.commits != [] ==> s.commits[0].seen == 0)
    && (forall e :: e in s.evals && s.evals[e].Read? ==>
          s.evals[e].seen <= |s.commits| && (s.evals[e].seen == 0 <==> s.evals[e].already == {}))
  }

  lemma EarlyAppend(commits: seq<Commit>, commit: Commit)
    ensures Early(commits + [commit]) == Early(commits) + if commit.seen == 0 then 1 else 0
  {
    assert (commits + [commit])[..|commits|] == commits;
  }

  lemma {:induction false} StepKeepsDemand(s: State, step: Step, oneShot: bool)
    requires Enabled(s, step) && DemandInv(s)
    ensures DemandInv(Next(s, step, oneShot))
  {
    hide Inserted, Batches, Channels, Unfired, Early;
    var s' := Next(s, step, oneShot);
    if s'.commits != s.commits {
      EarlyAppend(s.commits, s'.commits[|s.commits|]);
      InsertedSome(s.firings, s.evals[step.e].candidates);
    }
  }

  lemma InsertedSome(firings: set<nat>, candidates: seq<nat>)
    ensures Inserted(firings, candidates) != [] <==> exists c :: c in candidates && c !in firings
    ensures Inserted(firings, candidates) != [] ==> firings + Elements(candidates) != {}
  {
    InsertedExactly(firings, candidates);
    var inserted := Inserted(firings, candidates);
    if inserted != [] {
      assert inserted[0] in Elements(inserted);
    }
    if c :| c in candidates && c !in firings {
      assert c in Elements(candidates) - firings;
    }
  }

  lemma {:induction false} EarlyOnce(commits: seq<Commit>)
    requires commits != [] ==> commits[0].seen == 0
    ensures commits != [] ==> Early(commits) >= 1
    ensures Early(commits) <= 1 <==> forall k :: 1 <= k < |commits| ==> commits[k].seen >= 1
  {
    if |commits| > 1 {
      var n := |commits| - 1;
      EarlyOnce(commits[..n]);
      assert forall k :: 1 <= k < n ==> commits[..n][k] == commits[k];
    }
  }

  // ----- one-shot alerts -----

  /** A one-shot alert is disarmed by its first firing transaction, so whatever commits later loaded
      it before. */
  ghost predicate OneShotInv(s: State) {
    && (s.commits != [] ==> !s.active)
    && (forall e :: e in s.evals ==> s.evals[e].epoch == 0)
    && (forall k :: 0 <= k < |s.commits| ==> s.commits[k].epoch == 0)
  }

  lemma StepKeepsOneShot(s: State, step: Step)
    requires Enabled(s, step) && OneShotInv(s)
    ensures OneShotInv(Next(s, step, true))
  {
    hide Inserted, Batches, Channels, Unfired;
  }

  lemma StepKeepsArmed(s: State, step: Step)
    requires Enabled(s, step) && s.active
    ensures Next(s, step, false).active
  {
    hide Inserted, Batches, Channels, Unfired;
  }

  // ----- whole runs -----

  ghost predicate Inv(s: State, oneShot: bool) {
    ReturnsInv(s) && BatchesInv(s) && DemandInv(s) && ReadInv(s) && (if oneShot then OneShotInv(s) else s.active)
  }

  lemma {:induction false} RunKeepsInv(s: State, steps: seq<Step>, oneShot: bool)
    requires Inv(s, oneShot) && ValidRun(s, steps, oneShot)
    ensures Inv(Final(s, steps, oneShot), oneShot)
    decreases |steps|
  {
    hide Next, ReturnsInv, BatchesInv, DemandInv, OneShotInv, ReadInv;
    if steps != [] {
      StepKeepsRead(s, steps[0], oneShot);
      StepKeepsReturns(s, steps[0], oneShot);
      StepKeepsBatches(s, steps[0], oneShot);
      StepKeepsDemand(s, steps[0], oneShot);
      if oneShot {
        StepKeepsOneShot(s, steps[0]);
      } else {
        StepKeepsArmed(s, steps[0]);
      }
      RunKeepsInv(Next(s, steps[0], oneShot), steps[1..], oneShot);
    }
  }

  lemma ReachableInv(settings: Settings, steps: seq<Step>, oneShot: bool)
    requires ValidRun(Init(settings), steps, oneShot)
    ensures Inv(Final(Init(settings), steps, oneShot), oneShot)
  {
    hide Next, ValidRun, Final;
    assert Inv(Init(settings), oneShot);
    RunKeepsInv(Init(settings), steps, oneShot);
  }

  /** Racing evaluations return pairwise disjoint firings whose union is the firing table. */
  lemma ReturnedIsFiringTable(settings: Settings, steps: seq<Step>, oneShot: bool)
    requires ValidRun(Init(settings), steps, oneShot)
    ensures var s := Final(Init(settings), steps, oneShot);
            && (forall e, f, c :: e in s.returned && f in s.returned && c in s.returned[e] && c in s.returned[f] ==>
                  e == f)
            && (forall c :: c in s.firings <==> exists e :: e in s.returned && c in s.returned[e])
  {
    hide Next, ValidRun, Final, BatchesInv, DemandInv, OneShotInv;
    ReachableInv(settings, steps, oneShot);
  }

  /** Once an evaluation has returned, every claim it read as satisfying has fired, and it returned none it
      had not read. */
  lemma ReadMeansFired(settings: Settings, steps: seq<Step>, oneShot: bool, e: nat)
    requires ValidRun(Init(settings), steps, oneShot) && e in Final(Init(settings), steps, oneShot).returned
    ensures var s := Final(Init(settings), steps, oneShot);
            && e in s.observed && Elements(s.observed[e]) <= s.firings
            && Elements(s.returned[e]) <= Elements(s.observed[e])
  {
    hide Next, ValidRun, Final, ReturnsInv, BatchesInv, DemandInv, OneShotInv;
    ReachableInv(settings, steps, oneShot);
    assert ReadOne(Final(Init(settings), steps, oneShot), e);
  }

  /** Crashes and changes of settings are not held up by anything. */
  lemma AnyMoment(s: State, e: nat, settings: Settings, oneShot: bool)
    ensures e in s.evals ==> Enabled(s, Crash(e))
    ensures Enabled(s, Configure(settings)) && Next(s, Configure(settings), oneShot).settings == settings
  {
  }

  /** An evaluation that reads nothing new returns at once, with nothing, and changes nothing else. */
  lemma NothingNew(s: State, e: nat, satisfying: seq<nat>, oneShot: bool)
    requires Enabled(s, Observe(e, satisfying)) && Elements(satisfying) <= s.firings
    ensures var s' := Next(s, Observe(e, satisfying), oneShot);
            && e in s'.returned && s'.returned[e] == [] && e !in s'.evals
            && s'.firings == s.firings && s'.queue == s.queue && s'.demands == s.demands && s'.active == s.active
  {
    hide Elements;
    UnfiredExactly(satisfying, s.firings);
    ElementsOfNone(Unfired(satisfying, s.firings));
  }

  /** Only a one-shot alert is ever disarmed. */
  lemma StaysArmed(settings: Settings, steps: seq<Step>)
    requires ValidRun(Init(settings), steps, false)
    ensures Final(Init(settings), steps, false).active
  {
    hide Next, ValidRun, Final, ReturnsInv, BatchesInv, DemandInv, ReadInv;
    ReachableInv(settings, steps, false);
  }

  /** A claim has fired if and only if a transaction recorded it, and then exactly one did; it is covered
      by exactly one batch on each channel configured then and by none on the others. A claim that did
      not fire is covered by no batch. */
  lemma FiredIffEnqueued(settings: Settings, steps: seq<Step>, oneShot: bool, claim: nat)
    requires ValidRun(Init(settings), steps, oneShot)
    ensures var s := Final(Init(settings), steps, oneShot);
            && (claim in s.firings <==> exists k :: 0 <= k < |s.commits| && claim in s.commits[k].claims)
            && (forall j, k :: 0 <= j < k < |s.commits| && claim in s.commits[j].claims ==> claim !in s.commits[k].claims)
            && (forall k, channel :: 0 <= k < |s.commits| && claim in s.commits[k].claims ==>
                  Covering(s.queue, channel, claim) == if channel in Channels(s.commits[k].settings) then 1 else 0)
            && (claim !in s.firings ==> forall channel :: Covering(s.queue, channel, claim) == 0)
  {
    hide Next, ValidRun, Final, ReturnsInv, DemandInv, OneShotInv, Channels;
    ReachableInv(settings, steps, oneShot);
    var s := Final(Init(settings), steps, oneShot);
    forall k, channel | 0 <= k < |s.commits| && claim in s.commits[k].claims
      ensures Covering(s.queue, channel, claim) == if channel in Channels(s.commits[k].settings) then 1 else 0
    {
      RecordedOnce(s.commits, k, channel, claim);
    }
    if claim !in s.firings {
      forall channel ensures Covering(s.queue, channel, claim) == 0 {
        RecordedNever(s.commits, channel, claim);
      }
    }
  }

  lemma {:induction false} RecordedNever(commits: seq<Commit>, channel: Channel, claim: nat)
    requires forall k :: 0 <= k < |commits| ==> claim !in commits[k].claims
    ensures Recorded(commits, channel, claim) == 0
  {
    if commits != [] {
      RecordedNever(commits[..|commits| - 1], channel, claim);
    }
  }

  lemma {:induction false} RecordedOnce(commits: seq<Commit>, k: nat, channel: Channel, claim: nat)
    requires k < |commits| && claim in commits[k].claims
    requires forall j :: 0 <= j < |commits| && j != k ==> claim !in commits[j].claims
    ensures Recorded(commits, channel, claim) == if channel in Channels(commits[k].settings) then 1 else 0
  {
    hide Channels;
    var n := |commits| - 1;
    if k == n {
      RecordedNever(commits[..n], channel, claim);
    } else {
      RecordedOnce(commits[..n], k, channel, claim);
    }
  }

  /** A firing transaction raises demand if and only if its evaluation read the firings before the first
      commit, whatever it read there and whoever else is at work. */
  lemma RaisesDemandIff(settings: Settings, steps: seq<Step>, oneShot: bool, e: nat)
    requires ValidRun(Init(settings), steps, oneShot) && Enabled(Final(Init(settings), steps, oneShot), Record(e))
    requires var s := Final(Init(settings), steps, oneShot); Inserted(s.firings, s.evals[e].candidates) != []
    ensures var s := Final(Init(settings), steps, oneShot);
            Next(s, Record(e), oneShot).demands == s.demands + if s.evals[e].seen == 0 then 1 else 0
  {
    hide ValidRun, Final, ReturnsInv, BatchesInv, OneShotInv, Inserted;
    ReachableInv(settings, steps, oneShot);
  }

  /** Once anything has fired demand has been raised, and it has been raised once only if and only if
      every later firing transaction had read the firings after the first commit. */
  lemma DemandOnceIff(settings: Settings, steps: seq<Step>, oneShot: bool)
    requires ValidRun(Init(settings), steps, oneShot)
    ensures var s := Final(Init(settings), steps, oneShot);
            && (s.firings != {} ==> s.demands >= 1)
            && (s.demands <= 1 <==> forall k :: 1 <= k < |s.commits| ==> s.commits[k].seen >= 1)
  {
    hide Next, ValidRun, Final, ReturnsInv, BatchesInv, OneShotInv;
    ReachableInv(settings, steps, oneShot);
    EarlyOnce(Final(Init(settings), steps, oneShot).commits);
  }

  /** Every firing transaction of a one-shot alert belongs to an evaluation that loaded the alert
      before the first of them committed; after that no evaluation can start. */
  lemma OneShotOnlyByRace(settings: Settings, steps: seq<Step>)
    requires ValidRun(Init(settings), steps, true)
    ensures var s := Final(Init(settings), steps, true);
            && (forall k :: 0 <= k < |s.commits| ==> s.commits[k].epoch == 0)
            && (s.commits != [] ==> forall e :: !Enabled(s, Load(e)))
  {
    hide Next, ValidRun, Final, ReturnsInv, BatchesInv, DemandInv;
    ReachableInv(settings, steps, true);
  }

  /** An evaluation that can still fire: it has yet to read, or a candidate of its is still unrecorded. */
  ghost predicate Loose(s: State, e: nat) {
    e in s.evals && (s.evals[e].Loaded? || exists c :: c in s.evals[e].candidates && c !in s.firings)
  }

  lemma StepKeepsQuiet(s: State, step: Step)
    requires Enabled(s, step) && !s.active && forall e :: !Loose(s, e)
    ensures var s' := Next(s, step, true); s'.commits == s.commits && !s'.active && forall e :: !Loose(s', e)
  {
    hide Unfired, Inserted;
    if step.Record? || step.Observe? {
      assert !Loose(s, step.e);
    }
    if step.Record? {
      InsertedSome(s.firings, s.evals[step.e].candidates);
    }
    forall e ensures !Loose(Next(s, step, true), e) {
      assert !Loose(s, e);
    }
  }

  lemma {:induction false} StaysQuiet(s: State, more: seq<Step>)
    requires ValidRun(s, more, true) && !s.active && forall e :: !Loose(s, e)
    ensures Final(s, more, true).commits == s.commits
    decreases |more|
  {
    hide Next, Loose;
    if more != [] {
      StepKeepsQuiet(s, more[0]);
      StaysQuiet(Next(s, more[0], true), more[1..]);
    }
  }

  lemma NewClaim(claims: set<nat>) returns (c: nat)
    ensures forall x :: x in claims ==> x < c
    decreases claims
  {
    c := 0;
    if claims != {} {
      var x :| x in claims;
      c := NewClaim(claims - {x});
      assert forall y :: y in claims ==> y == x || y in claims - {x};
      if c <= x {
        c := x + 1;
      }
    }
  }

  lemma FireNow(s: State, e: nat)
    requires e in s.evals && s.evals[e].Read? && exists c :: c in s.evals[e].candidates && c !in s.firings
    ensures ValidRun(s, [Record(e)], true) && |Final(s, [Record(e)], true).commits| == |s.commits| + 1
  {
    hide Inserted;
    InsertedSome(s.firings, s.evals[e].candidates);
    var s' := Next(s, Record(e), true);
    assert [Record(e)][1..] == [] && ValidRun(s', [], true) && Final(s', [], true) == s';
  }

  lemma Fire(s: State, e: nat) returns (more: seq<Step>)
    requires Loose(s, e)
    ensures ValidRun(s, more, true) && |Final(s, more, true).commits| == |s.commits| + 1
  {
    if s.evals[e].Read? {
      more := [Record(e)];
      FireNow(s, e);
    } else {
      var c := NewClaim(s.firings);
      SingleCandidate(c, s.firings);
      var s' := Next(s, Observe(e, [c]), true);
      assert s'.evals[e].candidates == [c] && c in [c];
      FireNow(s', e);
      more := [Observe(e, [c]), Record(e)];
      assert more[1..] == [Record(e)];
    }
  }

  ghost predicate FiresAgain(s: State, more: seq<Step>) {
    ValidRun(s, more, true) && |Final(s, more, true).commits| > |s.commits|
  }

  /** The exact condition: after its first firing transaction a one-shot alert can fire again, in some
      continuation, if and only if an evaluation that loaded it before that one is still going on and has
      yet to read or still holds an unrecorded candidate. */
  lemma OneShotAgainIff(settings: Settings, steps: seq<Step>)
    requires ValidRun(Init(settings), steps, true) && Final(Init(settings), steps, true).commits != []
    ensures var s := Final(Init(settings), steps, true);
            && ((exists more :: FiresAgain(s, more)) <==> exists e :: Loose(s, e))
            && forall e :: Loose(s, e) ==> s.evals[e].epoch == 0
  {
    hide Next, ValidRun, Final, ReturnsInv, BatchesInv, DemandInv;
    ReachableInv(settings, steps, true);
    var s := Final(Init(settings), steps, true);
    if e :| Loose(s, e) {
      var more := Fire(s, e);
      assert FiresAgain(s, more);
    } else {
      forall more | ValidRun(s, more, true) ensures !FiresAgain(s, more) {
        StaysQuiet(s, more);
      }
    }
  }

  /** A run in which evaluations never overlap. */
  ghost predicate OneAtATime(s: State, steps: seq<Step>, oneShot: bool)
    requires ValidRun(s, steps, oneShot)
    decreases |steps|
  {
    |s.evals| <= 1 && (steps != [] ==> OneAtATime(Next(s, steps[0], oneShot), steps[1..], oneShot))
  }

  ghost predicate AloneInv(s: State, oneShot: bool) {
    && (forall e :: e in s.evals && s.evals[e].Read? ==> s.evals[e].already == s.firings)
    && (s.commits == [] <==> s.firings == {})
    && s.demands <= 1 && (s.commits == [] ==> s.demands == 0)
    && (oneShot ==> |s.commits| <= 1 && (s.commits != [] ==> !s.active && s.evals == map[]))
  }

  lemma StepKeepsAlone(s: State, step: Step, oneShot: bool)
    requires Enabled(s, step) && |s.evals| <= 1 && AloneInv(s, oneShot)
    ensures AloneInv(Next(s, step, oneShot), oneShot)
  {
    hide Batches, Channels, Unfired;
    var s' := Next(s, step, oneShot);
    if step.Record? || step.Observe? || step.Crash? {
      OnlyKey(s.evals, step.e);
    }
    if s'.commits != s.commits {
      InsertedExactly(s.firings, s.evals[step.e].candidates);
      var claims := Inserted(s.firings, s.evals[step.e].candidates);
      assert claims[0] in Elements(claims);
    }
  }

  lemma OnlyKey(evals: map<nat, Evaluation>, e: nat)
    requires e in evals && |evals| <= 1
    ensures evals.Keys == {e} && evals - {e} == map[]
  {
    assert |evals.Keys - {e}| == 0;
  }

  lemma {:induction false} AloneRunKeeps(s: State, steps: seq<Step>, oneShot: bool)
    requires ValidRun(s, steps, oneShot) && OneAtATime(s, steps, oneShot) && AloneInv(s, oneShot)
    ensures AloneInv(Final(s, steps, oneShot), oneShot)
    decreases |steps|
  {
    hide Next, AloneInv;
    if steps != [] {
      StepKeepsAlone(s, steps[0], oneShot);
      AloneRunKeeps(Next(s, steps[0], oneShot), steps[1..], oneShot);
    }
  }

  /** Without races demand is raised at most once and a one-shot alert fires at most once. */
  lemma AloneFiresOnce(settings: Settings, steps: seq<Step>, oneShot: bool)
    requires ValidRun(Init(settings), steps, oneShot) && OneAtATime(Init(settings), steps, oneShot)
    ensures var s := Final(Init(settings), steps, oneShot);
            s.demands <= 1 && (oneShot ==> |s.commits| <= 1)
  {
    hide Next, ValidRun, Final, OneAtATime;
    assert AloneInv(Init(settings), oneShot);
    AloneRunKeeps(Init(settings), steps, oneShot);
  }

  const RACE: seq<Step> := [Load(0), Load(1), Observe(0, [7]), Observe(1, [8]), Record(0), Record(1)]

  const WEBHOOK_ONLY: Settings := Settings(true, false)

  /** The states of the race, one after each step. */
  function Racing(i: nat): State
    requires i <= 6
  {
    var read0, read1 := Read(0, 0, [7], {}), Read(0, 0, [8], {});
    var first := Commit(0, 0, 0, [7], WEBHOOK_ONLY);
    var s := Init(WEBHOOK_ONLY);
    if i == 0 then s
    else if i == 1 then s.(evals := map[0 := Loaded(0)])
    else if i == 2 then s.(evals := map[0 := Loaded(0), 1 := Loaded(0)])
    else if i == 3 then s.(evals := map[0 := read0, 1 := Loaded(0)], observed := map[0 := [7]])
    else if i == 4 then s.(evals := map[0 := read0, 1 := read1], observed := map[0 := [7], 1 := [8]])
    else if i == 5 then
      State({7}, [Batch(Webhook, [7])], 1, false, WEBHOOK_ONLY, map[1 := read1], map[0 := [7], 1 := [8]], map[0 := [7]],
            [first])
    else
      State({7, 8}, [Batch(Webhook, [7]), Batch(Webhook, [8])], 2, false, WEBHOOK_ONLY, map[],
            map[0 := [7], 1 := [8]], map[0 := [7], 1 := [8]], [first, Commit(1, 0, 0, [8], WEBHOOK_ONLY)])
  }

  lemma SingleCandidate(c: nat, fired: set<nat>)
    requires c !in fired
    ensures Unfired([c], fired) == Inserted(fired, [c]) == [c] && Elements([c]) == {c}
    ensures Batches(Channels(WEBHOOK_ONLY), [c]) == [Batch(Webhook, [c])]
  {
    assert [c][..0] == [];
  }

  lemma RacingStep(i: nat)
    requires i < 6
    ensures Enabled(Racing(i), RACE[i]) && Next(Racing(i), RACE[i], true) == Racing(i + 1)
  {
    hide Unfired, Inserted, Elements, Batches, Channels;
    SingleCandidate(7, {});
    SingleCandidate(8, {});
    SingleCandidate(8, {7});
    var s, t := Racing(i), Racing(i + 1);
    match i {
      case 1 => assert s.evals[1 := Loaded(0)] == t.evals;
      case 2 => assert s.evals[0 := Read(0, 0, [7], {})] == t.evals;
      case 3 => assert s.evals[1 := Read(0, 0, [8], {})] == t.evals && s.observed[1 := [8]] == t.observed;
      case 4 => assert s.evals - {0} == t.evals && s.firings + {7} == t.firings;
      case 5 => assert s.evals - {1} == t.evals && s.firings + {8} == t.firings && s.returned[1 := [8]] == t.returned;
      case _ =>
    }
  }

  lemma {:induction false} RacingFrom(i: nat)
    requires i <= 6
    ensures ValidRun(Racing(i), RACE[i..], true) && Final(Racing(i), RACE[i..], true) == Racing(6)
    decreases 6 - i
  {
    hide Next, Racing, Enabled;
    if i < 6 {
      RacingStep(i);
      RacingFrom(i + 1);
      assert RACE[i..][0] == RACE[i] && RACE[i..][1..] == RACE[i + 1..];
    }
  }

  /** With a race both guarantees fail: two evaluations that loaded the alert and read before either
      committed raise demand twice, and a one-shot alert fires twice. */
  lemma RaceFiresTwice()
    ensures ValidRun(Init(WEBHOOK_ONLY), RACE, true)
    ensures Final(Init(WEBHOOK_ONLY), RACE, true).demands == 2
    ensures |Final(Init(WEBHOOK_ONLY), RACE, true).commits| == 2
  {
    hide ValidRun, Final;
    RacingFrom(0);
    assert RACE[0..] == RACE;
  }
}
