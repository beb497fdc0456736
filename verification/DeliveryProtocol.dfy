/** The delivery queue under any interleaving of workers, crashes, expiry and purge
    (src/omni/alerts/notify.py). Every statement is one atomic step; sends happen between steps. */
module DeliveryProtocol {
  import opened Clock
  import opened Delivery
  import opened Powers

  /** The k-th claim of a row. */
  datatype Claim = Claim(id: nat, k: nat)

  /** An outcome statement that matched its row; Pending stands for a recorded retry. */
  datatype Write = Write(claim: Claim, outcome: Status)

  /** A worker inside a pass that started at `moment`. `taken` are the rows this pass has claimed. */
  datatype Worker =
    | Starting(moment: int)
    | Ready(moment: int, taken: set<nat>)
    | Sending(moment: int, taken: set<nat>, claim: Claim, since: int)
    | Sent(moment: int, taken: set<nat>, claim: Claim, since: int, ok: bool)

  /** `used` are the row ids ever issued; `claims`, `arrived` and `writes` record every claim, every
      successful send and every outcome statement that took effect. */
  datatype State = State(
    rows: Queue,
    used: set<nat>,
    workers: map<nat, Worker>,
    claims: seq<Claim>,
    arrived: set<Claim>,
    writes: seq<Write>,
    clock: int)

  const INIT: State := State(map[], {}, map[], [], {}, [], 0)

  datatype Step =
    | Enqueue(id: nat)
    | StartPass(w: nat)
    | Expire(w: nat)
    | Purge(w: nat, victims: set<nat>)
    | TakeDue(w: nat, id: nat)
    | EndSend(w: nat, ok: bool)
    | WriteOutcome(w: nat)
    | EndPass(w: nat)
    | Crash(w: nat)
    | Tick(later: int)

  predicate InFlight(worker: Worker) {
    worker.Sending? || worker.Sent?
  }

  predicate Enabled(s: State, step: Step) {
    match step
    case Enqueue(id) => id !in s.used
    case StartPass(w) => w !in s.workers
    case Expire(w) => w in s.workers && s.workers[w].Starting?
    case Purge(w, _) => w in s.workers && s.workers[w].Ready? && s.workers[w].taken == {}
    case TakeDue(w, id) =>
      w in s.workers && s.workers[w].Ready? && id in s.rows && Due(s.rows[id], s.workers[w].moment)
    case EndSend(w, _) => w in s.workers && s.workers[w].Sending?
    case WriteOutcome(w) => w in s.workers && s.workers[w].Sent?
    case EndPass(w) => w in s.workers && s.workers[w].Ready?
    case Crash(w) => w in s.workers
    case Tick(later) => later >= s.clock
  }

  function OutcomeStatus(k: nat, ok: bool, maxAttempts: int): Status {
    if ok then Delivered else if k >= maxAttempts then Failed else Pending
  }

  function Next(s: State, step: Step, maxAttempts: int): State
    requires Enabled(s, step)
  {
    match step
    case Enqueue(id) => s.(rows := s.rows[id := Row(Pending, 0, s.clock, s.clock)], used := s.used + {id})
    case StartPass(w) => s.(workers := s.workers[w := Starting(s.clock)])
    case Expire(w) =>
      var moment := s.workers[w].moment;
      s.(rows := Expired(s.rows, moment), workers := s.workers[w := Ready(moment, {})])
    case Purge(w, victims) => s.(rows := Purged(s.rows, s.workers[w].moment, victims))
    case TakeDue(w, id) =>
      var Ready(moment, taken) := s.workers[w];
      var claim := Claim(id, s.rows[id].attempts + 1);
      s.(rows := s.rows[id := Claimed(s.rows[id], s.clock)],
         workers := s.workers[w := Sending(moment, taken + {id}, claim, s.clock)],
         claims := s.claims + [claim])
    case EndSend(w, ok) =>
      var Sending(moment, taken, claim, since) := s.workers[w];
      s.(workers := s.workers[w := Sent(moment, taken, claim, since, ok)],
         arrived := if ok then s.arrived + {claim} else s.arrived)
    case WriteOutcome(w) =>
      var Sent(moment, taken, claim, since, ok) := s.workers[w];
      s.(rows := Written(s.rows, claim.id, claim.k, ok, maxAttempts, s.clock),
         workers := s.workers[w := Ready(moment, taken)],
         writes := if Fenced(s.rows, claim.id, claim.k)
                   then s.writes + [Write(claim, OutcomeStatus(claim.k, ok, maxAttempts))] else s.writes)
    case EndPass(w) => s.(workers := s.workers - {w})
    case Crash(w) => s.(workers := s.workers - {w})
    case Tick(later) => s.(clock := later)
  }

  ghost predicate ValidRun(s: State, steps: seq<Step>, maxAttempts: int)
    decreases |steps|
  {
    steps == [] || (Enabled(s, steps[0]) && ValidRun(Next(s, steps[0], maxAttempts), steps[1..], maxAttempts))
  }

  ghost function Final(s: State, steps: seq<Step>, maxAttempts: int): State
    requires ValidRun(s, steps, maxAttempts)
    decreases |steps|
  {
    if steps == [] then s else Final(Next(s, steps[0], maxAttempts), steps[1..], maxAttempts)
  }

  // ----- what a single step does to a row -----

  /** How one row can change in one step, while it exists: its birth date never, a closed row not at
      all, an open one by counting a claim, by closing, or by being rescheduled into the future. */
  ghost predicate RowMoves(before: Row, after: Row, clock: int) {
    && after.createdAt == before.createdAt
    && (!before.status.Pending? ==> after == before)
    && before.attempts <= after.attempts <= before.attempts + 1
    && (after.attempts > before.attempts ==> after == Claimed(before, clock))
    && (after.nextAt != before.nextAt && after.attempts == before.attempts ==>
          after.nextAt == clock + Backoff(before.attempts))
  }

  ghost predicate RowsUsed(s: State) {
    forall id :: id in s.rows ==> id in s.used
  }

  /** Delivered and failed are absorbing until purge: purge removes such a row whole, and no id returns. */
  lemma RowStep(s: State, step: Step, maxAttempts: int, id: nat)
    requires Enabled(s, step) && RowsUsed(s) && id in s.rows
    ensures id in Next(s, step, maxAttempts).rows ==>
              RowMoves(s.rows[id], Next(s, step, maxAttempts).rows[id], s.clock)
    ensures id !in Next(s, step, maxAttempts).rows ==> !s.rows[id].status.Pending? && step.Purge?
  {
  }

  lemma NewRowStep(s: State, step: Step, maxAttempts: int, id: nat)
    requires Enabled(s, step) && id !in s.rows && id in Next(s, step, maxAttempts).rows
    ensures step == Enqueue(id) && id !in s.used
    ensures Next(s, step, maxAttempts).rows[id] == Row(Pending, 0, s.clock, s.clock)
  {
  }

  // ----- claims are unique -----

  /** No two claims are the same, and each is at most the attempt number of its row. */
  ghost predicate ClaimsInv(s: State) {
    && (forall i :: 0 <= i < |s.claims| ==>
          && s.claims[i].k >= 1 && s.claims[i].id in s.used
          && (s.claims[i].id in s.rows ==> s.claims[i].k <= s.rows[s.claims[i].id].attempts))
    && (forall i, j :: 0 <= i < j < |s.claims| ==> s.claims[i] != s.claims[j])
  }

  lemma StepKeepsClaims(s: State, step: Step, maxAttempts: int)
    requires Enabled(s, step) && RowsUsed(s) && ClaimsInv(s)
    ensures RowsUsed(Next(s, step, maxAttempts)) && ClaimsInv(Next(s, step, maxAttempts))
  {
    var s' := Next(s, step, maxAttempts);
    hide Expired, Purged, Written, Backoff;
    forall id | id in s'.rows ensures id in s'.used {
      if id !in s.rows {
        NewRowStep(s, step, maxAttempts, id);
      }
    }
    forall i | 0 <= i < |s'.claims|
      ensures s'.claims[i].id in s'.used
      ensures s'.claims[i].id in s'.rows ==> s'.claims[i].k <= s'.rows[s'.claims[i].id].attempts
    {
      var id := s'.claims[i].id;
      if id in s.rows {
        RowStep(s, step, maxAttempts, id);
      } else if id in s'.rows {
        NewRowStep(s, step, maxAttempts, id);
      }
    }
  }

  // ----- one holder and one effective outcome per claim -----

  predicate Recorded(writes: seq<Write>, claim: Claim) {
    exists i :: 0 <= i < |writes| && writes[i].claim == claim
  }

  predicate SameClaim(a: Worker, b: Worker) {
    InFlight(a) && InFlight(b) && a.claim == b.claim
  }

  /** A claim being worked on was made, has no recorded outcome, and has one worker. */
  ghost predicate HeldInv(s: State) {
    && (forall w :: w in s.workers && InFlight(s.workers[w]) ==>
          s.workers[w].claim in s.claims && !Recorded(s.writes, s.workers[w].claim))
    && (forall w, v :: w in s.workers && v in s.workers && SameClaim(s.workers[w], s.workers[v]) ==> w == v)
  }

  /** Each claim has at most one effective outcome, and only a claim has one. */
  ghost predicate WritesInv(s: State) {
    && (forall i :: 0 <= i < |s.writes| ==> s.writes[i].claim in s.claims)
    && (forall i, j :: 0 <= i < j < |s.writes| ==> s.writes[i].claim != s.writes[j].claim)
  }

  lemma StepKeepsHeld(s: State, step: Step, maxAttempts: int)
    requires Enabled(s, step) && ClaimsInv(s) && HeldInv(s) && WritesInv(s)
    ensures HeldInv(Next(s, step, maxAttempts)) && WritesInv(Next(s, step, maxAttempts))
  {
    hide Expired, Purged, Written, Backoff, RowsUsed;
    if step.TakeDue? {
      var claim := Claim(step.id, s.rows[step.id].attempts + 1);
      assert claim !in s.claims;
      assert claim in s.claims + [claim];
    }
  }

  // ----- what an outcome says about its row -----

  /** The last effective outcome of a row is the only one that may close it; retries stay below the
      attempt limit; a delivered row has a successful send on record, at its own attempt number. */
  ghost predicate OutcomesInv(s: State, maxAttempts: int) {
    && (forall i :: 0 <= i < |s.writes| ==>
          var w := s.writes[i];
          && (w.outcome.Pending? ==> w.claim.k < maxAttempts)
          && (w.outcome.Delivered? ==> w.claim in s.arrived)
          && (!w.outcome.Pending? && w.claim.id in s.rows ==>
                s.rows[w.claim.id].status == w.outcome && s.rows[w.claim.id].attempts == w.claim.k))
    && (forall i, j :: 0 <= i < j < |s.writes| && s.writes[i].claim.id == s.writes[j].claim.id ==>
          s.writes[i].outcome.Pending?)
    && (forall id :: id in s.rows && s.rows[id].status.Delivered? ==> Claim(id, s.rows[id].attempts) in s.arrived)
    && (forall w :: w in s.workers && s.workers[w].Sent? && s.workers[w].ok ==> s.workers[w].claim in s.arrived)
    && (forall i :: 0 <= i < |s.writes| ==> s.writes[i].claim.id in s.used)
  }

  lemma StepKeepsOutcomes(s: State, step: Step, maxAttempts: int)
    requires Enabled(s, step) && RowsUsed(s) && OutcomesInv(s, maxAttempts)
    ensures OutcomesInv(Next(s, step, maxAttempts), maxAttempts)
  {
    hide Backoff;
  }

  // ----- retries are bounded -----

  /** The attempt numbers at which retries of a row were recorded. */
  ghost function RetriedAt(writes: seq<Write>, id: nat): set<nat> {
    if writes == [] then {}
    else
      var w := writes[|writes| - 1];
      RetriedAt(writes[..|writes| - 1], id) + if w.claim.id == id && w.outcome.Pending? then {w.claim.k} else {}
  }

  function Retries(writes: seq<Write>, id: nat): nat {
    if writes == [] then 0
    else
      var w := writes[|writes| - 1];
      Retries(writes[..|writes| - 1], id) + if w.claim.id == id && w.outcome.Pending? then 1 else 0
  }

  lemma {:induction false} RetriesAreDistinct(writes: seq<Write>, id: nat)
    requires forall i, j :: 0 <= i < j < |writes| ==> writes[i].claim != writes[j].claim
    ensures Retries(writes, id) == |RetriedAt(writes, id)|
    ensures forall k :: k in RetriedAt(writes, id) ==>
              exists i :: 0 <= i < |writes| && writes[i] == Write(Claim(id, k), Pending)
  {
    if writes != [] {
      var n := |writes| - 1;
      RetriesAreDistinct(writes[..n], id);
      forall k | k in RetriedAt(writes, id)
        ensures exists i :: 0 <= i < |writes| && writes[i] == Write(Claim(id, k), Pending)
      {
        if k in RetriedAt(writes[..n], id) {
          var i :| 0 <= i < n && writes[..n][i] == Write(Claim(id, k), Pending);
          assert writes[i] == Write(Claim(id, k), Pending);
        } else {
          assert writes[n] == Write(Claim(id, k), Pending);
        }
      }
    }
  }

  lemma {:induction false} AtMost(numbers: set<nat>, m: nat)
    requires forall k :: k in numbers ==> 1 <= k <= m
    ensures |numbers| <= m
    decreases m
  {
    if m == 0 {
      assert numbers == {};
    } else {
      AtMost(numbers - {m}, m - 1);
      assert numbers <= numbers - {m} + {m};
    }
  }

  lemma RetriesBounded(s: State, id: nat, maxAttempts: nat)
    requires maxAttempts >= 1 && ClaimsInv(s) && WritesInv(s) && OutcomesInv(s, maxAttempts)
    ensures Retries(s.writes, id) <= maxAttempts - 1
  {
    RetriesAreDistinct(s.writes, id);
    forall k | k in RetriedAt(s.writes, id) ensures 1 <= k <= maxAttempts - 1 {
      var i :| 0 <= i < |s.writes| && s.writes[i] == Write(Claim(id, k), Pending);
      assert s.writes[i].claim in s.claims;
    }
    AtMost(RetriedAt(s.writes, id), maxAttempts - 1);
  }

  // ----- time: passes, attempts -----

  /** The least time from a row's birth to its next attempt after n counted ones: the first may be
      followed by a backoff of half a lease, every later one costs at least a whole lease. */
  function Least(n: nat): int {
    if n == 0 then 0 else LEASE * n - BACKOFF_BASE
  }

  lemma BackoffAtLeast(n: nat)
    ensures Backoff(n) >= BACKOFF_BASE && (n >= 2 ==> Backoff(n) >= LEASE)
  {
  }

  /** Each counted attempt pushes the row's next one further from its birth, and every claim was made
      inside the delivery window. */
  ghost predicate Aged(row: Row, clock: int) {
    && row.createdAt <= clock
    && (row.status.Pending? ==> row.nextAt >= row.createdAt + Least(row.attempts))
    && (row.attempts >= 1 ==>
          Least(row.attempts - 1) <= TTL && row.createdAt + Least(row.attempts - 1) <= clock)
  }

  ghost predicate AgeInv(s: State) {
    forall id :: id in s.rows ==> Aged(s.rows[id], s.clock)
  }

  /** A row a pass has claimed is not due for it again; no open row has outlived its window there. */
  ghost predicate PassInv(s: State) {
    forall w :: w in s.workers ==>
      var worker := s.workers[w];
      && worker.moment <= s.clock
      && (!worker.Starting? ==>
            && (InFlight(worker) ==> worker.claim.id in worker.taken)
            && (forall id :: id in worker.taken ==> id in s.used && (id in s.rows ==> !Due(s.rows[id], worker.moment)))
            && (forall id :: id in s.rows && s.rows[id].status.Pending? ==> s.rows[id].createdAt >= worker.moment - TTL))
  }

  lemma RowKeepsAge(before: Row, after: Row, clock: int, later: int)
    requires Aged(before, clock) && RowMoves(before, after, clock) && clock <= later
    requires after.attempts > before.attempts ==>
               before.status.Pending? && before.nextAt <= clock && before.nextAt <= before.createdAt + TTL
    ensures Aged(after, later)
  {
    BackoffAtLeast(before.attempts);
  }

  /** Only a due row inside its delivery window is claimed. */
  lemma ClaimedWhileDue(s: State, step: Step, maxAttempts: int, id: nat)
    requires Enabled(s, step) && PassInv(s) && id in s.rows && id in Next(s, step, maxAttempts).rows
    requires Next(s, step, maxAttempts).rows[id].attempts > s.rows[id].attempts
    ensures var row := s.rows[id];
            row.status.Pending? && row.nextAt <= s.clock && row.nextAt <= row.createdAt + TTL
  {
    hide Backoff;
    assert step == TakeDue(step.w, id);
    assert s.workers[step.w].moment <= s.clock;
  }

  lemma StepKeepsAge(s: State, step: Step, maxAttempts: int)
    requires Enabled(s, step) && RowsUsed(s) && AgeInv(s) && PassInv(s)
    ensures AgeInv(Next(s, step, maxAttempts))
  {
    var s' := Next(s, step, maxAttempts);
    assert s.clock <= s'.clock;
    hide Next, RowMoves, Aged, PassInv;
    forall id | id in s'.rows ensures Aged(s'.rows[id], s'.clock) {
      if id !in s.rows {
        NewRowStep(s, step, maxAttempts, id);
        NewRowAged(s.clock, s'.clock);
      } else {
        RowStep(s, step, maxAttempts, id);
        if s'.rows[id].attempts > s.rows[id].attempts {
          ClaimedWhileDue(s, step, maxAttempts, id);
        }
        RowKeepsAge(s.rows[id], s'.rows[id], s.clock, s'.clock);
      }
    }
  }

  lemma NewRowAged(clock: int, later: int)
    requires clock <= later
    ensures Aged(Row(Pending, 0, clock, clock), later)
  {
  }

  lemma StepKeepsPass(s: State, step: Step, maxAttempts: int)
    requires Enabled(s, step) && RowsUsed(s) && AgeInv(s) && PassInv(s)
    ensures PassInv(Next(s, step, maxAttempts))
  {
    hide Purged, Written, Backoff;
    var s' := Next(s, step, maxAttempts);
    forall id | id in s'.rows
      ensures id in s.rows ==> RowMoves(s.rows[id], s'.rows[id], s.clock)
      ensures id !in s.rows ==> id !in s.used && s'.rows[id] == Row(Pending, 0, s.clock, s.clock)
    {
      if id !in s.rows {
        NewRowStep(s, step, maxAttempts, id);
      } else {
        RowStep(s, step, maxAttempts, id);
      }
    }
  }

  // ----- why a row has failed -----

  /** A failed row has used up its attempts or outlived its delivery window. */
  ghost predicate FailedInv(s: State, maxAttempts: int) {
    forall id :: id in s.rows && s.rows[id].status.Failed? ==>
      s.rows[id].attempts >= maxAttempts || s.rows[id].createdAt < s.clock - DAY
  }

  lemma StepKeepsFailed(s: State, step: Step, maxAttempts: int)
    requires Enabled(s, step) && PassInv(s) && FailedInv(s, maxAttempts)
    ensures FailedInv(Next(s, step, maxAttempts), maxAttempts)
  {
    hide Backoff;
    if step.Expire? {
      assert s.workers[step.w].moment <= s.clock;
    }
  }

  // ----- leases -----

  predicate SameRow(a: Worker, b: Worker) {
    InFlight(a) && InFlight(b) && a.claim.id == b.claim.id
  }

  /** An open row stays hidden to the end of every lease on it, exactly so far if the claim is its latest. */
  ghost predicate Hidden(row: Row, worker: Worker)
    requires InFlight(worker)
  {
    row.status.Pending? ==>
      && worker.claim.k <= row.attempts && row.nextAt >= worker.since + LEASE
      && (worker.claim.k == row.attempts ==> row.nextAt == worker.since + LEASE)
  }

  /** Two claims of one row that are both being worked on were made at least a lease apart. */
  ghost predicate LeaseInv(s: State) {
    && (forall w :: w in s.workers && InFlight(s.workers[w]) ==>
          var worker := s.workers[w];
          && worker.since <= s.clock && worker.claim.id in s.used
          && (worker.claim.id in s.rows ==> Hidden(s.rows[worker.claim.id], worker)))
    && (forall w, v :: w in s.workers && v in s.workers && SameRow(s.workers[w], s.workers[v])
                       && s.workers[w].claim.k < s.workers[v].claim.k ==>
          s.workers[w].since + LEASE <= s.workers[v].since)
  }

  /** A worker in flight after a step was so before it, with the same claim, or has just made its claim. */
  lemma FlightStep(s: State, step: Step, maxAttempts: int, w: nat)
    requires Enabled(s, step) && w in Next(s, step, maxAttempts).workers
    requires InFlight(Next(s, step, maxAttempts).workers[w])
    ensures var now := Next(s, step, maxAttempts).workers[w];
            if step.TakeDue? && step.w == w
            then now.claim == Claim(step.id, s.rows[step.id].attempts + 1) && now.since == s.clock
            else w in s.workers && InFlight(s.workers[w])
                 && s.workers[w].claim == now.claim && s.workers[w].since == now.since
  {
    hide Expired, Purged, Written;
  }

  /** Only the holder of a row's latest claim reschedules it. */
  lemma Rescheduled(s: State, step: Step, maxAttempts: int, id: nat)
    requires Enabled(s, step) && id in s.rows && id in Next(s, step, maxAttempts).rows && RowsUsed(s)
    requires Next(s, step, maxAttempts).rows[id].attempts == s.rows[id].attempts
    requires Next(s, step, maxAttempts).rows[id].nextAt != s.rows[id].nextAt
    ensures step.WriteOutcome? && s.workers[step.w].claim == Claim(id, s.rows[id].attempts)
  {
    hide Backoff;
  }

  lemma StaysHidden(before: Row, after: Row, worker: Worker, clock: int)
    requires InFlight(worker) && RowMoves(before, after, clock) && Hidden(before, worker) && worker.since <= clock
    requires after.attempts == before.attempts && after.nextAt != before.nextAt ==>
               worker.claim.k < before.attempts && worker.since + LEASE <= clock
    ensures Hidden(after, worker)
  {
    BackoffAtLeast(before.attempts);
  }

  lemma StepKeepsHidden(s: State, step: Step, maxAttempts: int, w: nat)
    requires Enabled(s, step) && RowsUsed(s) && PassInv(s) && HeldInv(s) && LeaseInv(s)
    requires w in Next(s, step, maxAttempts).workers && InFlight(Next(s, step, maxAttempts).workers[w])
    ensures var s' := Next(s, step, maxAttempts);
            var worker := s'.workers[w];
            && worker.since <= s'.clock && worker.claim.id in s'.used
            && (worker.claim.id in s'.rows ==> Hidden(s'.rows[worker.claim.id], worker))
  {
    FlightStep(s, step, maxAttempts, w);
    var s' := Next(s, step, maxAttempts);
    var worker := s'.workers[w];
    var id := worker.claim.id;
    if step.TakeDue? && step.w == w {
      assert s'.rows[id] == Claimed(s.rows[id], s.clock);
    } else if id in s'.rows {
      var before := s.workers[w];
      if id !in s.rows {
        NewRowStep(s, step, maxAttempts, id);
      }
      RowStep(s, step, maxAttempts, id);
      if s'.rows[id].attempts == s.rows[id].attempts && s'.rows[id].nextAt != s.rows[id].nextAt {
        Rescheduled(s, step, maxAttempts, id);
        assert SameRow(before, s.workers[step.w]) && s.rows[id].status.Pending?;
        assert !SameClaim(before, s.workers[step.w]);
      }
      assert Hidden(s.rows[id], before);
      assert Hidden(s.rows[id], worker);
      StaysHidden(s.rows[id], s'.rows[id], worker, s.clock);
    }
  }

  lemma {:induction false} StepKeepsLease(s: State, step: Step, maxAttempts: int)
    requires Enabled(s, step) && RowsUsed(s) && PassInv(s) && HeldInv(s) && LeaseInv(s)
    ensures LeaseInv(Next(s, step, maxAttempts))
  {
    var s' := Next(s, step, maxAttempts);
    hide Next, HeldInv, RowsUsed;
    forall w | w in s'.workers && InFlight(s'.workers[w])
      ensures var worker := s'.workers[w];
              && worker.since <= s'.clock && worker.claim.id in s'.used
              && (worker.claim.id in s'.rows ==> Hidden(s'.rows[worker.claim.id], worker))
    {
      StepKeepsHidden(s, step, maxAttempts, w);
    }
    forall w, v | w in s'.workers && v in s'.workers && SameRow(s'.workers[w], s'.workers[v])
                  && s'.workers[w].claim.k < s'.workers[v].claim.k
      ensures s'.workers[w].since + LEASE <= s'.workers[v].since
    {
      FlightStep(s, step, maxAttempts, w);
      FlightStep(s, step, maxAttempts, v);
      if step.TakeDue? && step.w == v {
        assert Hidden(s.rows[step.id], s.workers[w]);
      } else if !step.TakeDue? || step.w != w {
        assert SameRow(s.workers[w], s.workers[v]);
      }
    }
  }

  // ----- whole runs -----

  ghost predicate Inv(s: State, maxAttempts: int) {
    && RowsUsed(s) && ClaimsInv(s) && HeldInv(s) && WritesInv(s) && OutcomesInv(s, maxAttempts)
    && AgeInv(s) && PassInv(s) && LeaseInv(s) && FailedInv(s, maxAttempts)
  }

  lemma {:induction false} StepKeepsInv(s: State, step: Step, maxAttempts: int)
    requires Inv(s, maxAttempts) && Enabled(s, step)
    ensures Inv(Next(s, step, maxAttempts), maxAttempts)
  {
    hide Next, RowsUsed, ClaimsInv, HeldInv, WritesInv, OutcomesInv, AgeInv, PassInv, LeaseInv, FailedInv;
    StepKeepsClaims(s, step, maxAttempts);
    StepKeepsHeld(s, step, maxAttempts);
    StepKeepsOutcomes(s, step, maxAttempts);
    StepKeepsAge(s, step, maxAttempts);
    StepKeepsPass(s, step, maxAttempts);
    StepKeepsLease(s, step, maxAttempts);
    StepKeepsFailed(s, step, maxAttempts);
  }

  lemma {:induction false} RunKeepsInv(s: State, steps: seq<Step>, maxAttempts: int)
    requires Inv(s, maxAttempts) && ValidRun(s, steps, maxAttempts)
    ensures Inv(Final(s, steps, maxAttempts), maxAttempts)
    decreases |steps|
  {
    hide Next, Inv;
    if steps != [] {
      StepKeepsInv(s, steps[0], maxAttempts);
      RunKeepsInv(Next(s, steps[0], maxAttempts), steps[1..], maxAttempts);
    }
  }

  lemma ReachableInv(steps: seq<Step>, maxAttempts: int)
    requires ValidRun(INIT, steps, maxAttempts)
    ensures Inv(Final(INIT, steps, maxAttempts), maxAttempts)
  {
    hide Next, Final, ValidRun;
    InvInitially(maxAttempts);
    RunKeepsInv(INIT, steps, maxAttempts);
  }

  lemma InvInitially(maxAttempts: int)
    ensures Inv(INIT, maxAttempts)
  {
  }

  /** Fencing, over every interleaving of workers, crashes, expiry and purge: no two claims of a row
      carry the same attempt number, a claim has one worker, and it has at most one effective
      outcome; only the last outcome of a row closes it, so no row is closed twice. */
  lemma Fencing(steps: seq<Step>, maxAttempts: int)
    requires ValidRun(INIT, steps, maxAttempts)
    ensures var s := Final(INIT, steps, maxAttempts);
            && (forall i, j :: 0 <= i < j < |s.claims| ==> s.claims[i] != s.claims[j])
            && (forall w, v :: w in s.workers && v in s.workers && SameClaim(s.workers[w], s.workers[v]) ==> w == v)
            && (forall i, j :: 0 <= i < j < |s.writes| ==> s.writes[i].claim != s.writes[j].claim)
            && (forall i, j :: 0 <= i < j < |s.writes| && s.writes[i].claim.id == s.writes[j].claim.id ==>
                  s.writes[i].outcome.Pending?)
  {
    hide Next, Final, ValidRun;
    ReachableInv(steps, maxAttempts);
  }

  /** A delivered row, and every effective delivered outcome, has a successful send on record for the
      very claim it was written under. */
  lemma DeliveredMeansSent(steps: seq<Step>, maxAttempts: int)
    requires ValidRun(INIT, steps, maxAttempts)
    ensures var s := Final(INIT, steps, maxAttempts);
            && (forall id :: id in s.rows && s.rows[id].status.Delivered? ==>
                  Claim(id, s.rows[id].attempts) in s.arrived)
            && (forall i :: 0 <= i < |s.writes| && s.writes[i].outcome.Delivered? ==> s.writes[i].claim in s.arrived)
  {
    hide Next, Final, ValidRun;
    ReachableInv(steps, maxAttempts);
  }

  /** A row has failed only if it used up its attempts or outlived its delivery window of a day: a failed
      send alone never closes it. */
  lemma FailedForAReason(steps: seq<Step>, maxAttempts: int, id: nat)
    requires ValidRun(INIT, steps, maxAttempts)
    requires var s := Final(INIT, steps, maxAttempts); id in s.rows && s.rows[id].status.Failed?
    ensures var s := Final(INIT, steps, maxAttempts);
            s.rows[id].attempts >= maxAttempts || s.rows[id].createdAt < s.clock - DAY
  {
    hide Next, Final, ValidRun;
    ReachableInv(steps, maxAttempts);
  }

  /** A row is gone only a week after its birth. */
  lemma GoneAfterAWeek(steps: seq<Step>, maxAttempts: int, step: Step, id: nat)
    requires ValidRun(INIT, steps, maxAttempts) && Enabled(Final(INIT, steps, maxAttempts), step)
    requires var s := Final(INIT, steps, maxAttempts); id in s.rows && id !in Next(s, step, maxAttempts).rows
    ensures var s := Final(INIT, steps, maxAttempts);
            !s.rows[id].status.Pending? && s.rows[id].createdAt < s.clock - 7 * DAY
  {
    hide Final, ValidRun;
    ReachableInv(steps, maxAttempts);
    var s := Final(INIT, steps, maxAttempts);
    RowStep(s, step, maxAttempts, id);
    assert s.workers[step.w].moment <= s.clock;
  }

  /** What an outcome statement that matches its row does to it: a working send delivers it; a failed one
      closes it at the attempt limit, and below it leaves it open and due exactly a minute times two to
      the number of earlier attempts from now. */
  lemma OutcomeMeans(s: State, w: nat, maxAttempts: int)
    requires Enabled(s, WriteOutcome(w))
    requires var Claim(id, k) := s.workers[w].claim; k >= 1 && Fenced(s.rows, id, k)
    ensures var Sent(_, _, Claim(id, k), _, ok) := s.workers[w];
            var after := Next(s, WriteOutcome(w), maxAttempts).rows;
            && after.Keys == s.rows.Keys && (forall x :: x in after && x != id ==> after[x] == s.rows[x])
            && Next(s, WriteOutcome(w), maxAttempts).writes == s.writes + [Write(Claim(id, k), after[id].status)]
            && after[id].attempts == k && after[id].createdAt == s.rows[id].createdAt
            && (ok ==> after[id].status.Delivered?)
            && (!ok && k >= maxAttempts ==> after[id].status.Failed?)
            && (!ok && k < maxAttempts ==>
                  after[id].status.Pending? && after[id].nextAt == s.clock + 60 * SECOND * TwoTo(k - 1))
  {
    BackoffIsPower(s.workers[w].claim.k);
  }

  /** Crashes and the clock are not held up by anything; a pass expires first, and may purge before it claims. */
  lemma AnyMoment(s: State, w: nat, victims: set<nat>, later: int, maxAttempts: int)
    ensures w in s.workers ==> Enabled(s, Crash(w))
    ensures later >= s.clock ==> Enabled(s, Tick(later))
    ensures w in s.workers && s.workers[w].Starting? ==>
              Enabled(s, Expire(w)) && Enabled(Next(s, Expire(w), maxAttempts), Purge(w, victims))
  {
  }

  /** A turn that nobody disturbs goes through: the row is claimed for two minutes, the send is on record
      exactly if it worked, and the outcome matches its row. */
  lemma TurnGoesThrough(s: State, w: nat, id: nat, ok: bool, maxAttempts: int)
    requires Enabled(s, TakeDue(w, id))
    ensures var k := s.rows[id].attempts + 1;
            var s1 := Next(s, TakeDue(w, id), maxAttempts);
            && s1.rows[id].attempts == k && s1.rows[id].nextAt == s.clock + 120 * SECOND
            && s1.claims == s.claims + [Claim(id, k)]
            && Enabled(s1, EndSend(w, ok))
            && var s2 := Next(s1, EndSend(w, ok), maxAttempts);
               && s2.arrived == (if ok then s.arrived + {Claim(id, k)} else s.arrived) && Enabled(s2, WriteOutcome(w))
               && s2.workers[w].claim == Claim(id, k) && s2.workers[w].ok == ok && Fenced(s2.rows, id, k)
  {
  }

  /** A row has fewer recorded retries than the attempt limit. */
  lemma FewerRetriesThanAttempts(steps: seq<Step>, maxAttempts: nat, id: nat)
    requires ValidRun(INIT, steps, maxAttempts) && maxAttempts >= 1
    ensures Retries(Final(INIT, steps, maxAttempts).writes, id) <= maxAttempts - 1
  {
    hide Next, Final, ValidRun;
    ReachableInv(steps, maxAttempts);
    RetriesBounded(Final(INIT, steps, maxAttempts), id, maxAttempts);
  }

  /** However many workers crash, the delivery window bounds the claims of a row at 721, which
      CrashesOutrunTheLimit attains. */
  lemma ClaimsBounded(steps: seq<Step>, maxAttempts: int, id: nat)
    requires ValidRun(INIT, steps, maxAttempts) && id in Final(INIT, steps, maxAttempts).rows
    ensures Final(INIT, steps, maxAttempts).rows[id].attempts <= 721
  {
    hide Next, Final, ValidRun;
    ReachableInv(steps, maxAttempts);
  }

  /** One pass never claims the same row twice. */
  lemma NeverTwiceInOnePass(steps: seq<Step>, maxAttempts: int, w: nat, id: nat)
    requires ValidRun(INIT, steps, maxAttempts) && Enabled(Final(INIT, steps, maxAttempts), TakeDue(w, id))
    ensures id !in Final(INIT, steps, maxAttempts).workers[w].taken
  {
    hide Next, Final, ValidRun;
    ReachableInv(steps, maxAttempts);
  }

  /** Two workers on one row made their claims at least a lease apart: the one with the older claim has
      outlived its own lease. */
  lemma LeasesApart(steps: seq<Step>, maxAttempts: int, w: nat, v: nat)
    requires ValidRun(INIT, steps, maxAttempts)
    requires var workers := Final(INIT, steps, maxAttempts).workers;
             w in workers && v in workers && w != v && SameRow(workers[w], workers[v])
    ensures var s := Final(INIT, steps, maxAttempts);
            var a, b := s.workers[w], s.workers[v];
            a.claim.k != b.claim.k
            && if a.claim.k < b.claim.k then a.since + LEASE <= b.since <= s.clock else b.since + LEASE <= a.since <= s.clock
  {
    hide Next, Final, ValidRun;
    ReachableInv(steps, maxAttempts);
    var s := Final(INIT, steps, maxAttempts);
    assert !SameClaim(s.workers[w], s.workers[v]);
    assert SameRow(s.workers[v], s.workers[w]);
  }

  /** Lease exclusivity: two workers that are both still inside their leases are never on one row,
      however late others are. */
  lemma LeaseExclusive(steps: seq<Step>, maxAttempts: int, w: nat, v: nat)
    requires ValidRun(INIT, steps, maxAttempts)
    requires var s := Final(INIT, steps, maxAttempts);
             && w in s.workers && v in s.workers && SameRow(s.workers[w], s.workers[v])
             && s.clock < s.workers[w].since + LEASE && s.clock < s.workers[v].since + LEASE
    ensures w == v
  {
    hide Next, Final, ValidRun;
    if w != v {
      LeasesApart(steps, maxAttempts, w, v);
    }
  }

  // ----- what the future of a row can be -----

  ghost predicate ClosedAs(s: State, id: nat, row: Row) {
    id in s.used && !row.status.Pending? && (id in s.rows ==> s.rows[id] == row)
  }

  lemma {:induction false} StaysClosed(s: State, more: seq<Step>, maxAttempts: int, id: nat, row: Row)
    requires Inv(s, maxAttempts) && ValidRun(s, more, maxAttempts) && ClosedAs(s, id, row)
    ensures ClosedAs(Final(s, more, maxAttempts), id, row)
    ensures id !in s.rows ==> id !in Final(s, more, maxAttempts).rows
    decreases |more|
  {
    if more != [] {
      var s' := Next(s, more[0], maxAttempts);
      assert id in s'.used;
      hide Next, ClaimsInv, HeldInv, WritesInv, OutcomesInv, AgeInv, PassInv, LeaseInv, FailedInv;
      StepKeepsInv(s, more[0], maxAttempts);
      if id in s'.rows {
        if id !in s.rows {
          NewRowStep(s, more[0], maxAttempts, id);
        }
        RowStep(s, more[0], maxAttempts, id);
      }
      StaysClosed(s', more[1..], maxAttempts, id, row);
    }
  }

  /** Delivered and failed are absorbing: a closed row stays as it is until it is purged, and a purged
      row never comes back. */
  lemma ClosedForGood(before: seq<Step>, middle: seq<Step>, after: seq<Step>, maxAttempts: int, id: nat)
    requires ValidRun(INIT, before, maxAttempts)
    requires ValidRun(Final(INIT, before, maxAttempts), middle, maxAttempts)
    requires ValidRun(Final(Final(INIT, before, maxAttempts), middle, maxAttempts), after, maxAttempts)
    requires var s := Final(INIT, before, maxAttempts); id in s.rows && !s.rows[id].status.Pending?
    ensures var s := Final(INIT, before, maxAttempts);
            var t := Final(s, middle, maxAttempts);
            && (id in t.rows ==> t.rows[id] == s.rows[id])
            && (id !in t.rows ==> id !in Final(t, after, maxAttempts).rows)
  {
    hide Next, Final, ValidRun;
    var s := Final(INIT, before, maxAttempts);
    ReachableInv(before, maxAttempts);
    StaysClosed(s, middle, maxAttempts, id, s.rows[id]);
    RunKeepsInv(s, middle, maxAttempts);
    StaysClosed(Final(s, middle, maxAttempts), after, maxAttempts, id, s.rows[id]);
  }

  /** The row of a claim has moved on: it is closed, gone, or has been claimed again. */
  ghost predicate Stale(s: State, claim: Claim) {
    claim.id in s.used
    && (claim.id in s.rows ==> !s.rows[claim.id].status.Pending? || s.rows[claim.id].attempts > claim.k)
  }

  lemma {:induction false} StaysStale(s: State, more: seq<Step>, maxAttempts: int, claim: Claim)
    requires Inv(s, maxAttempts) && ValidRun(s, more, maxAttempts) && Stale(s, claim) && !Recorded(s.writes, claim)
    ensures !Recorded(Final(s, more, maxAttempts).writes, claim)
    decreases |more|
  {
    if more != [] {
      var s', id := Next(s, more[0], maxAttempts), claim.id;
      assert id in s'.used && !Recorded(s'.writes, claim);
      hide Next, ClaimsInv, HeldInv, WritesInv, OutcomesInv, AgeInv, PassInv, LeaseInv, FailedInv, Recorded;
      StepKeepsInv(s, more[0], maxAttempts);
      if id in s'.rows {
        if id !in s.rows {
          NewRowStep(s, more[0], maxAttempts, id);
        }
        RowStep(s, more[0], maxAttempts, id);
      }
      StaysStale(s', more[1..], maxAttempts, claim);
    }
  }

  /** A stale worker never has an effect: once the row of its claim is closed, gone or claimed again, no
      continuation records an outcome of that claim. */
  lemma StaleNeverApplies(steps: seq<Step>, more: seq<Step>, maxAttempts: int, w: nat)
    requires ValidRun(INIT, steps, maxAttempts) && ValidRun(Final(INIT, steps, maxAttempts), more, maxAttempts)
    requires var s := Final(INIT, steps, maxAttempts);
             w in s.workers && InFlight(s.workers[w]) && Stale(s, s.workers[w].claim)
    ensures var s := Final(INIT, steps, maxAttempts);
            !Recorded(Final(s, more, maxAttempts).writes, s.workers[w].claim)
  {
    hide Next, Final, ValidRun;
    ReachableInv(steps, maxAttempts);
    var s := Final(INIT, steps, maxAttempts);
    StaysStale(s, more, maxAttempts, s.workers[w].claim);
  }

  // ----- when the attempt limit is passed -----

  /** The limit is looked at only when an outcome is recorded, so it is passed only over lost claims: of a
      row with more than k claims, k at the limit or above, the k-th claim has no effective outcome. */
  lemma LimitPassedOnlyIfLost(steps: seq<Step>, maxAttempts: int, id: nat, k: nat)
    requires ValidRun(INIT, steps, maxAttempts) && k >= maxAttempts
    requires var s := Final(INIT, steps, maxAttempts); id in s.rows && s.rows[id].attempts > k
    ensures !Recorded(Final(INIT, steps, maxAttempts).writes, Claim(id, k))
  {
    hide Next, Final, ValidRun;
    ReachableInv(steps, maxAttempts);
  }

  /** The row comes due inside its delivery window, and somebody can still look at it in time: the clock
      is inside the window, or a pass that started there and late enough is still going on. */
  ghost predicate Reclaimable(s: State, id: nat)
    requires id in s.rows
  {
    var row := s.rows[id];
    && row.status.Pending? && row.nextAt <= row.createdAt + TTL
    && (s.clock <= row.createdAt + TTL || exists w :: w in s.workers && InTime(row, s.workers[w].moment))
  }

  predicate InTime(row: Row, moment: int) {
    row.nextAt <= moment <= row.createdAt + TTL
  }

  /** A row that has used up its attempts and will not be claimed again. */
  ghost predicate Spent(s: State, id: nat, k: nat) {
    id in s.used && (id in s.rows ==> s.rows[id].attempts == k && !Reclaimable(s, id))
  }

  lemma MomentStep(s: State, step: Step, maxAttempts: int, w: nat)
    requires Enabled(s, step) && w in Next(s, step, maxAttempts).workers
    ensures (w in s.workers && s.workers[w].moment == Next(s, step, maxAttempts).workers[w].moment)
            || Next(s, step, maxAttempts).workers[w].moment == s.clock
  {
    hide Expired, Purged, Written;
  }

  lemma OpenRowStands(s: State, step: Step, maxAttempts: int, id: nat, k: nat)
    requires Enabled(s, step) && RowsUsed(s) && PassInv(s) && Spent(s, id, k) && k >= maxAttempts && id in s.rows
    requires id in Next(s, step, maxAttempts).rows
    ensures var row := Next(s, step, maxAttempts).rows[id];
            row == s.rows[id] || (!row.status.Pending? && row.attempts == k)
  {
    hide Backoff;
    assert forall w :: w in s.workers && s.workers[w].Ready? && Due(s.rows[id], s.workers[w].moment) ==>
        InTime(s.rows[id], s.workers[w].moment);
  }

  lemma StepKeepsSpent(s: State, step: Step, maxAttempts: int, id: nat, k: nat)
    requires Enabled(s, step) && RowsUsed(s) && PassInv(s) && Spent(s, id, k) && k >= maxAttempts
    ensures Spent(Next(s, step, maxAttempts), id, k)
  {
    var s' := Next(s, step, maxAttempts);
    assert id in s'.used && s'.clock >= s.clock;
    hide Next, PassInv, RowsUsed;
    if id in s'.rows {
      if id !in s.rows {
        NewRowStep(s, step, maxAttempts, id);
      }
      OpenRowStands(s, step, maxAttempts, id, k);
      if w :| w in s'.workers && s'.rows[id] == s.rows[id] && InTime(s.rows[id], s'.workers[w].moment) {
        MomentStep(s, step, maxAttempts, w);
      }
    }
  }

  lemma {:induction false} StaysSpent(s: State, more: seq<Step>, maxAttempts: int, id: nat, k: nat)
    requires Inv(s, maxAttempts) && ValidRun(s, more, maxAttempts) && Spent(s, id, k) && k >= maxAttempts
    ensures Spent(Final(s, more, maxAttempts), id, k)
    decreases |more|
  {
    hide Next, ClaimsInv, HeldInv, WritesInv, OutcomesInv, AgeInv, LeaseInv, FailedInv, Spent;
    if more != [] {
      StepKeepsInv(s, more[0], maxAttempts);
      StepKeepsSpent(s, more[0], maxAttempts, id, k);
      StaysSpent(Next(s, more[0], maxAttempts), more[1..], maxAttempts, id, k);
    }
  }

  /** What is left for a worker to do before it can take a row. */
  function Phase(worker: Worker): nat {
    match worker
    case Ready(_, _) => 0
    case Starting(_) => 1
    case Sent(_, _, _, _, _) => 1
    case Sending(_, _, _, _) => 2
  }

  /** A worker whose pass started in time can finish what it is doing and claim the row. */
  lemma {:induction false} ReclaimBy(s: State, maxAttempts: int, id: nat, w: nat) returns (more: seq<Step>)
    requires Inv(s, maxAttempts) && id in s.rows && s.rows[id].status.Pending?
    requires w in s.workers && InTime(s.rows[id], s.workers[w].moment)
    ensures ValidRun(s, more, maxAttempts)
    ensures var t := Final(s, more, maxAttempts); id in t.rows && t.rows[id].attempts == s.rows[id].attempts + 1
    decreases Phase(s.workers[w])
  {
    var step := match s.workers[w]
      case Ready(_, _) => TakeDue(w, id)
      case Starting(_) => Expire(w)
      case Sending(_, _, _, _) => EndSend(w, false)
      case Sent(_, _, _, _, _) => WriteOutcome(w);
    var s' := Next(s, step, maxAttempts);
    if step.TakeDue? {
      more := [step];
      assert more[1..] == [];
      assert ValidRun(s', [], maxAttempts) && Final(s', [], maxAttempts) == s';
    } else {
      assert s'.rows[id] == s.rows[id];
      StepKeepsInv(s, step, maxAttempts);
      var rest := ReclaimBy(s', maxAttempts, id, w);
      more := [step] + rest;
      assert more[1..] == rest;
    }
  }

  lemma NewWorker(workers: set<nat>) returns (v: nat)
    ensures forall w :: w in workers ==> w < v
    decreases workers
  {
    v := 0;
    if workers != {} {
      var w :| w in workers;
      v := NewWorker(workers - {w});
      assert forall x :: x in workers ==> x == w || x in workers - {w};
      if v <= w {
        v := w + 1;
      }
    }
  }

  /** Inside the delivery window a pass can be started in time, by letting the clock reach the due time. */
  lemma {:induction false} StartInTime(s: State, maxAttempts: int, id: nat, v: nat, later: int) returns (t: State)
    requires Inv(s, maxAttempts) && id in s.rows && v !in s.workers
    requires s.clock <= later && InTime(s.rows[id], later)
    ensures Inv(t, maxAttempts) && t.rows == s.rows && v in t.workers && t.workers[v].moment == later
    ensures forall rest :: ValidRun(t, rest, maxAttempts) ==>
              var more := [Tick(later), StartPass(v)] + rest;
              ValidRun(s, more, maxAttempts) && Final(s, more, maxAttempts) == Final(t, rest, maxAttempts)
  {
    hide ClaimsInv, HeldInv, WritesInv, OutcomesInv, AgeInv, PassInv, LeaseInv, FailedInv, RowsUsed;
    var s1 := Next(s, Tick(later), maxAttempts);
    t := Next(s1, StartPass(v), maxAttempts);
    StepKeepsInv(s, Tick(later), maxAttempts);
    StepKeepsInv(s1, StartPass(v), maxAttempts);
    forall rest | ValidRun(t, rest, maxAttempts)
      ensures var more := [Tick(later), StartPass(v)] + rest;
              ValidRun(s, more, maxAttempts) && Final(s, more, maxAttempts) == Final(t, rest, maxAttempts)
    {
      var more := [Tick(later), StartPass(v)] + rest;
      assert more[1..] == [StartPass(v)] + rest && more[1..][1..] == rest;
      assert ValidRun(s1, more[1..], maxAttempts);
    }
  }

  lemma {:induction false} Reclaim(s: State, maxAttempts: int, id: nat) returns (more: seq<Step>)
    requires Inv(s, maxAttempts) && id in s.rows && Reclaimable(s, id)
    ensures ValidRun(s, more, maxAttempts)
    ensures var t := Final(s, more, maxAttempts); id in t.rows && t.rows[id].attempts == s.rows[id].attempts + 1
  {
    hide Inv, Next, ValidRun, Final;
    var row := s.rows[id];
    if w :| w in s.workers && InTime(row, s.workers[w].moment) {
      more := ReclaimBy(s, maxAttempts, id, w);
    } else {
      var v := NewWorker(s.workers.Keys);
      var later := if row.nextAt > s.clock then row.nextAt else s.clock;
      var t := StartInTime(s, maxAttempts, id, v, later);
      var rest := ReclaimBy(t, maxAttempts, id, v);
      more := [Tick(later), StartPass(v)] + rest;
    }
  }

  ghost predicate ClaimedBeyond(s: State, id: nat, k: nat) {
    id in s.rows && s.rows[id].attempts > k
  }

  /** The exact condition: in any reachable state, a row that has used up its attempts is claimed again in
      some continuation if and only if it is still open, comes due inside its delivery window, and
      somebody can still look at it in time. */
  lemma LimitOutrunIff(steps: seq<Step>, maxAttempts: int, id: nat)
    requires ValidRun(INIT, steps, maxAttempts)
    requires var s := Final(INIT, steps, maxAttempts); id in s.rows && s.rows[id].attempts >= maxAttempts
    ensures var s := Final(INIT, steps, maxAttempts);
            Reclaimable(s, id) <==>
            exists more :: ValidRun(s, more, maxAttempts)
                           && ClaimedBeyond(Final(s, more, maxAttempts), id, s.rows[id].attempts)
  {
    hide Next, Final, ValidRun, Reclaimable;
    ReachableInv(steps, maxAttempts);
    var s := Final(INIT, steps, maxAttempts);
    if Reclaimable(s, id) {
      var more := Reclaim(s, maxAttempts, id);
      assert ClaimedBeyond(Final(s, more, maxAttempts), id, s.rows[id].attempts);
    } else {
      forall more | ValidRun(s, more, maxAttempts)
        ensures !ClaimedBeyond(Final(s, more, maxAttempts), id, s.rows[id].attempts)
      {
        StaysSpent(s, more, maxAttempts, id, s.rows[id].attempts);
      }
    }
  }

  /** When a row can be doubled: while a worker holds the latest claim of an open row, a pass that starts
      now can claim the row too if and only if the lease is over and the delivery window is not. */
  lemma SecondClaimIff(steps: seq<Step>, maxAttempts: int, w: nat, v: nat)
    requires ValidRun(INIT, steps, maxAttempts)
    requires var s := Final(INIT, steps, maxAttempts);
             && w in s.workers && InFlight(s.workers[w]) && v !in s.workers
             && var Claim(id, k) := s.workers[w].claim; Fenced(s.rows, id, k)
    ensures var s := Final(INIT, steps, maxAttempts);
            var id := s.workers[w].claim.id;
            var t := Next(Next(s, StartPass(v), maxAttempts), Expire(v), maxAttempts);
            Enabled(t, TakeDue(v, id)) <==>
            s.workers[w].since + LEASE <= s.clock <= s.rows[id].createdAt + TTL
  {
    hide Final, ValidRun;
    ReachableInv(steps, maxAttempts);
    var s := Final(INIT, steps, maxAttempts);
    assert Hidden(s.rows[s.workers[w].claim.id], s.workers[w]);
  }

  // ----- what the protocol does not promise -----

  lemma {:induction false} RunAppend(s: State, a: seq<Step>, b: seq<Step>, maxAttempts: int)
    requires ValidRun(s, a, maxAttempts) && ValidRun(Final(s, a, maxAttempts), b, maxAttempts)
    ensures ValidRun(s, a + b, maxAttempts)
    ensures Final(s, a + b, maxAttempts) == Final(Final(s, a, maxAttempts), b, maxAttempts)
    decreases |a|
  {
    hide Next;
    if a == [] {
      assert a + b == b;
    } else {
      RunAppend(Next(s, a[0], maxAttempts), a[1..], b, maxAttempts);
      assert (a + b)[1..] == a[1..] + b;
    }
  }

  /** Steps that lead through the listed states, one by one. */
  lemma {:induction false} PathRuns(states: seq<State>, steps: seq<Step>, maxAttempts: int)
    requires |states| == |steps| + 1
    requires forall i :: 0 <= i < |steps| ==>
               Enabled(states[i], steps[i]) && Next(states[i], steps[i], maxAttempts) == states[i + 1]
    ensures ValidRun(states[0], steps, maxAttempts)
    ensures Final(states[0], steps, maxAttempts) == states[|steps|]
    decreases |steps|
  {
    hide Next, Enabled;
    if steps != [] {
      forall i | 0 <= i < |steps[1..]|
        ensures Enabled(states[1..][i], steps[1..][i])
        ensures Next(states[1..][i], steps[1..][i], maxAttempts) == states[1..][i + 1]
      {
        assert states[1..][i] == states[i + 1] && steps[1..][i] == steps[i + 1];
      }
      PathRuns(states[1..], steps[1..], maxAttempts);
    }
  }

  function FirstClaims(n: nat): seq<Claim> {
    seq(n, (k: nat) => Claim(0, k + 1))
  }

  /** One row, claimed n times by workers that all crashed, one lease after the other. */
  function Abandoned(n: nat): State {
    State(map[0 := Row(Pending, n, n * LEASE, 0)], {0}, map[], FirstClaims(n), {}, [], n * LEASE)
  }

  /** The attempt limit does not bound claims: it is only looked at when a failure is recorded, so
      workers that crash between claim and outcome can take one row up to 721 times, far past any
      limit, with no send on record. */
  lemma {:induction false} CrashesOutrunTheLimit(n: nat, maxAttempts: int) returns (steps: seq<Step>)
    requires n <= 721
    ensures ValidRun(INIT, steps, maxAttempts) && Final(INIT, steps, maxAttempts) == Abandoned(n)
  {
    if n == 0 {
      steps := [Enqueue(0)];
      FirstRow(maxAttempts);
      PathRuns([INIT, Abandoned(0)], steps, maxAttempts);
    } else {
      steps := CrashesOutrunTheLimit(n - 1, maxAttempts);
      var cycle := [StartPass(0), Expire(0), TakeDue(0, 0), Crash(0), Tick(n * LEASE)];
      AbandonedOnceMore(n - 1, maxAttempts);
      RunAppend(INIT, steps, cycle, maxAttempts);
      steps := steps + cycle;
    }
  }

  lemma FirstRow(maxAttempts: int)
    ensures Enabled(INIT, Enqueue(0)) && Next(INIT, Enqueue(0), maxAttempts) == Abandoned(0)
  {
    assert FirstClaims(0) == [];
  }

  lemma AbandonedOnceMore(n: nat, maxAttempts: int)
    requires n <= 720
    ensures var cycle := [StartPass(0), Expire(0), TakeDue(0, 0), Crash(0), Tick((n + 1) * LEASE)];
            ValidRun(Abandoned(n), cycle, maxAttempts)
            && Final(Abandoned(n), cycle, maxAttempts) == Abandoned(n + 1)
  {
    var s, now, claim := Abandoned(n), n * LEASE, Claim(0, n + 1);
    var s1, s2 := s.(workers := map[0 := Starting(now)]), s.(workers := map[0 := Ready(now, {})]);
    var s3 := State(map[0 := Row(Pending, n + 1, now + LEASE, 0)], {0},
                    map[0 := Sending(now, {0}, claim, now)], s.claims + [claim], {}, [], now);
    var s4 := s3.(workers := map[]);
    var cycle := [StartPass(0), Expire(0), TakeDue(0, 0), Crash(0), Tick((n + 1) * LEASE)];
    assert Expired(s.rows, now) == s.rows;
    assert s.rows[0 := Claimed(s.rows[0], now)] == s3.rows;
    assert FirstClaims(n) + [claim] == FirstClaims(n + 1);
    assert Next(s, cycle[0], maxAttempts) == s1 && Next(s1, cycle[1], maxAttempts) == s2;
    assert s2.workers[0].taken + {0} == {0};
    assert Next(s2, cycle[2], maxAttempts) == s3;
    assert Next(s3, cycle[3], maxAttempts) == s4 && Next(s4, cycle[4], maxAttempts) == Abandoned(n + 1);
    PathRuns([s, s1, s2, s3, s4, Abandoned(n + 1)], cycle, maxAttempts);
  }

  const LATE_SEND: seq<Step> := [Enqueue(0), StartPass(0), Expire(0), TakeDue(0, 0), Tick(LEASE), StartPass(1), Expire(1),
                                 TakeDue(1, 0)]

  /** Exclusivity needs the lease: a send that outlasts it lets a second worker send the same row. */
  lemma LateSendIsDoubled(maxAttempts: int)
    ensures ValidRun(INIT, LATE_SEND, maxAttempts)
    ensures var workers := Final(INIT, LATE_SEND, maxAttempts).workers;
            0 in workers && 1 in workers && SameRow(workers[0], workers[1])
  {
    hide ValidRun, Final;
    var states := seq(9, (i: nat) requires i <= 8 => Doubling(i));
    forall i | 0 <= i < 8
      ensures Enabled(states[i], LATE_SEND[i]) && Next(states[i], LATE_SEND[i], maxAttempts) == states[i + 1]
    {
      DoublingStep(i, maxAttempts);
    }
    PathRuns(states, LATE_SEND, maxAttempts);
  }

  /** The states of that run. */
  function Doubling(i: nat): State
    requires i <= 8
  {
    var queued := State(map[0 := Row(Pending, 0, 0, 0)], {0}, map[], [], {}, [], 0);
    var first := Sending(0, {0}, Claim(0, 1), 0);
    var claimed := queued.(rows := map[0 := Row(Pending, 1, LEASE, 0)], claims := [Claim(0, 1)]);
    if i == 0 then INIT
    else if i == 1 then queued
    else if i == 2 then queued.(workers := map[0 := Starting(0)])
    else if i == 3 then queued.(workers := map[0 := Ready(0, {})])
    else if i == 4 then claimed.(workers := map[0 := first])
    else if i == 5 then claimed.(workers := map[0 := first], clock := LEASE)
    else if i == 6 then claimed.(workers := map[0 := first, 1 := Starting(LEASE)], clock := LEASE)
    else if i == 7 then claimed.(workers := map[0 := first, 1 := Ready(LEASE, {})], clock := LEASE)
    else State(map[0 := Row(Pending, 2, 2 * LEASE, 0)], {0},
               map[0 := first, 1 := Sending(LEASE, {0}, Claim(0, 2), LEASE)],
               [Claim(0, 1), Claim(0, 2)], {}, [], LEASE)
  }

  lemma DoublingStep(i: nat, maxAttempts: int)
    requires i < 8
    ensures Enabled(Doubling(i), LATE_SEND[i]) && Next(Doubling(i), LATE_SEND[i], maxAttempts) == Doubling(i + 1)
  {
    var s := Doubling(i);
    assert Expired(s.rows, s.clock) == s.rows;
    if LATE_SEND[i].TakeDue? {
      var w := LATE_SEND[i].w;
      var claim := Claim(0, s.rows[0].attempts + 1);
      assert s.workers[w].taken + {0} == {0};
      assert s.rows[0 := Claimed(s.rows[0], s.clock)] == Doubling(i + 1).rows;
      assert s.workers[w := Sending(s.workers[w].moment, {0}, claim, s.clock)] == Doubling(i + 1).workers;
    }
    if i == 6 {
      assert s.workers[1 := Ready(LEASE, {})] == Doubling(7).workers;
    }
  }
}
