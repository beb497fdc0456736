/** Concurrent logins under the credential guard (src/omni/auth/admission.py, src/omni/api/auth.py):
    a try-lock per (email, IP) pair around check, verify and record, with crashes and maintenance
    passes anywhere. One instant is taken per guarded transaction, at its throttle check. */
module LoginGuard {
  import opened Options
  import opened Throttle
  import Budgets
  import opened LoginBudgets
  import RateLimit

  /** Email fingerprint and normalised address. */
  datatype Pair = PairOf(fingerprint: string, ip: string)

  /** Where the holder of a pair's lock is: it has only locked; it passed the check at some instant;
      it knows the password's verdict; it has written the outcome in its open transaction. */
  datatype Phase =
    | Locked
    | Checked(at: int)
    | Verified(at: int, ok: bool)
    | Written(at: int, ok: bool)

  datatype Flight = Flight(req: nat, phase: Phase)

  /** A lock holder that ran to its end: refused by the check, or committed. */
  datatype Entry = Entry(req: nat, at: int, verdict: Verdict, ok: bool)

  datatype Reply = RateLimited | Busy | TooMany(remaining: int) | ServerError | Unauthorized | Token

  /** `table` holds the committed failure rows; `log` records, per pair, the lock holders in the
      order they ended; `ended` the committed requests that have yet to answer or have answered. */
  datatype State = State(
    table: map<Pair, seq<int>>,
    flights: map<Pair, Flight>,
    log: map<Pair, seq<Entry>>,
    ended: map<nat, (Pair, bool)>,
    replies: map<nat, Reply>,
    now: int)
  {
    function Rows(p: Pair): seq<int> {
      if p in table then table[p] else []
    }

    function Log(p: Pair): seq<Entry> {
      if p in log then log[p] else []
    }

    function FlightOf(p: Pair): Option<Flight> {
      if p in flights then Some(flights[p]) else None
    }
  }

  const INIT: State := State(map[], map[], map[], map[], map[], 0)

  datatype Step =
    | TryLock(req: nat, pair: Pair)
    | Check(pair: Pair)
    | Verify(pair: Pair, ok: bool)
    | Write(pair: Pair)
    | Commit(pair: Pair)
    | Crash(pair: Pair)
    | Answer(req: nat)
    | Prune(victims: map<Pair, set<int>>)
    | Tick(later: int)

  /** No request of this number has been received yet. */
  predicate Unseen(s: State, req: nat) {
    req !in s.replies && req !in s.ended && forall p :: p in s.flights ==> s.flights[p].req != req
  }

  predicate Enabled(s: State, step: Step) {
    match step
    case TryLock(req, _) => Unseen(s, req)
    case Check(p) => p in s.flights && s.flights[p].phase.Locked?
    case Verify(p, _) => p in s.flights && s.flights[p].phase.Checked?
    case Write(p) => p in s.flights && s.flights[p].phase.Verified?
    case Commit(p) => p in s.flights && s.flights[p].phase.Written?
    case Crash(p) => p in s.flights
    case Answer(req) => req in s.ended && req !in s.replies
    case Prune(_) => true
    case Tick(later) => later >= s.now
  }

  function Next(s: State, step: Step): State
    requires Enabled(s, step)
  {
    match step
    case TryLock(req, p) =>
      if p in s.flights then s.(replies := s.replies[req := Busy])
      else s.(flights := s.flights[p := Flight(req, Locked)])
    case Check(p) =>
      var req := s.flights[p].req;
      (match Decide(s.Rows(p), s.now)
        case Refuse(remaining) =>
          s.(flights := s.flights - {p},
             log := s.log[p := s.Log(p) + [Entry(req, s.now, Refuse(remaining), false)]],
             replies := s.replies[req := TooMany(remaining)])
        case Admit => s.(flights := s.flights[p := Flight(req, Checked(s.now))]))
    case Verify(p, ok) =>
      s.(flights := s.flights[p := Flight(s.flights[p].req, Verified(s.flights[p].phase.at, ok))])
    case Write(p) =>
      var f := s.flights[p];
      s.(flights := s.flights[p := Flight(f.req, Written(f.phase.at, f.phase.ok))])
    case Commit(p) =>
      var Flight(req, Written(at, ok)) := s.flights[p];
      s.(table := if ok then s.table - {p} else s.table[p := s.Rows(p) + [at]],
         flights := s.flights - {p},
         log := s.log[p := s.Log(p) + [Entry(req, at, Admit, ok)]],
         ended := s.ended[req := (p, ok)])
    case Crash(p) => s.(flights := s.flights - {p})
    case Answer(req) => s.(replies := s.replies[req := if s.ended[req].1 then Token else Unauthorized])
    case Prune(victims) =>
      s.(table := map p | p in s.table :: Pruned(s.table[p], if p in victims then victims[p] else {}, s.now))
    case Tick(later) => s.(now := later)
  }

  ghost predicate ValidRun(s: State, steps: seq<Step>)
    decreases |steps|
  {
    steps == [] || (Enabled(s, steps[0]) && ValidRun(Next(s, steps[0]), steps[1..]))
  }

  ghost function Final(s: State, steps: seq<Step>): State
    requires ValidRun(s, steps)
    decreases |steps|
  {
    if steps == [] then s else Final(Next(s, steps[0]), steps[1..])
  }

  // ----- the serial reading of one pair -----

  function Attempts(log: seq<Entry>): (attempts: seq<Attempt>)
    ensures |attempts| == |log|
  {
    seq(|log|, k requires 0 <= k < |log| => Attempt(log[k].at, log[k].ok))
  }

  /** The failure history of running these lock holders one after another, with no pruning. */
  function Serial(log: seq<Entry>): seq<int> {
    Run([], Attempts(log))
  }

  /** Every logged verdict is the one the serial run gives, and the instants ascend. */
  ghost predicate MatchesSerial(log: seq<Entry>) {
    && InTimeOrder(Attempts(log))
    && forall k :: 0 <= k < |log| ==> log[k].verdict == Decide(Serial(log[..k]), log[k].at)
  }

  lemma SerialAppend(log: seq<Entry>, e: Entry)
    ensures Serial(log + [e]) == After(Serial(log), Attempt(e.at, e.ok))
  {
    var all := Attempts(log + [e]);
    assert all[..|log|] == Attempts(log);
  }

  lemma {:induction false} MatchesAppend(log: seq<Entry>, e: Entry)
    requires MatchesSerial(log) && e.verdict == Decide(Serial(log), e.at)
    requires forall k :: 0 <= k < |log| ==> log[k].at <= e.at
    ensures MatchesSerial(log + [e])
  {
    hide Serial, Decide;
    var all := log + [e];
    assert log == log[..|log|] == all[..|log|];
    assert InTimeOrder(Attempts(all)) by {
      forall i, j | 0 <= i < j < |all| ensures Attempts(all)[i].at <= Attempts(all)[j].at {
        if j < |log| {
          assert Attempts(log)[i].at <= Attempts(log)[j].at;
        }
      }
    }
    forall k | 0 <= k < |all| ensures all[k].verdict == Decide(Serial(all[..k]), all[k].at) {
      assert all[..k] == log[..k];
    }
  }

  // ----- the invariant of one pair -----

  /** What holds of one pair at every moment: its committed rows look like the serial history to
      every later decision, and its lock holder's decision is the serial one. */
  ghost predicate PairInv(rows: seq<int>, log: seq<Entry>, flight: Option<Flight>, now: int) {
    && MatchesSerial(log)
    && (forall k :: 0 <= k < |log| ==> log[k].at <= now)
    && Recent(rows, now) == Recent(Serial(log), now)
    && (flight.Some? && !flight.value.phase.Locked? ==>
          var at := flight.value.phase.at;
          && at <= now
          && Decide(Serial(log), at).Admit?
          && forall k :: 0 <= k < |log| ==> log[k].at <= at)
  }

  ghost predicate Inv(s: State) {
    forall p :: PairInv(s.Rows(p), s.Log(p), s.FlightOf(p), s.now)
  }

  lemma {:induction false} CheckKeepsPair(rows: seq<int>, log: seq<Entry>, req: nat, now: int)
    requires PairInv(rows, log, Some(Flight(req, Locked)), now)
    ensures match Decide(rows, now)
            case Refuse(remaining) => PairInv(rows, log + [Entry(req, now, Refuse(remaining), false)], None, now)
            case Admit => PairInv(rows, log, Some(Flight(req, Checked(now))), now)
  {
    hide MatchesSerial;
    assert Decide(rows, now) == Decide(Serial(log), now);
    if Decide(rows, now).Refuse? {
      var e := Entry(req, now, Decide(rows, now), false);
      MatchesAppend(log, e);
      SerialAppend(log, e);
    }
  }

  lemma {:induction false} CommitKeepsPair(rows: seq<int>, log: seq<Entry>, req: nat, at: int, ok: bool, now: int)
    requires PairInv(rows, log, Some(Flight(req, Written(at, ok))), now)
    ensures PairInv(if ok then [] else rows + [at], log + [Entry(req, at, Admit, ok)], None, now)
  {
    hide MatchesSerial;
    var e := Entry(req, at, Admit, ok);
    MatchesAppend(log, e);
    SerialAppend(log, e);
    AlikeAppend(rows, Serial(log), at, now);
  }

  predicate Concerns(step: Step, p: Pair) {
    !step.Answer? && !step.Prune? && !step.Tick? && step.pair == p
  }

  lemma RowsUntouched(s: State, step: Step, p: Pair)
    requires Enabled(s, step) && !Concerns(step, p) && !step.Prune? && !step.Tick?
    ensures Next(s, step).Rows(p) == s.Rows(p) && Next(s, step).now == s.now
  {
    hide Decide, Pruned, State.Log, State.FlightOf;
  }

  lemma LogUntouched(s: State, step: Step, p: Pair)
    requires Enabled(s, step) && !Concerns(step, p) && !step.Prune? && !step.Tick?
    ensures Next(s, step).Log(p) == s.Log(p)
  {
    hide Decide, Pruned, State.Rows, State.FlightOf;
  }

  lemma FlightUntouched(s: State, step: Step, p: Pair)
    requires Enabled(s, step) && !Concerns(step, p) && !step.Prune? && !step.Tick?
    ensures Next(s, step).FlightOf(p) == s.FlightOf(p)
  {
    hide Decide, Pruned, State.Rows, State.Log;
  }

  lemma {:induction false} StepKeepsPair(s: State, step: Step, p: Pair)
    requires Inv(s) && Enabled(s, step)
    ensures PairInv(Next(s, step).Rows(p), Next(s, step).Log(p), Next(s, step).FlightOf(p), Next(s, step).now)
  {
    assert PairInv(s.Rows(p), s.Log(p), s.FlightOf(p), s.now);
    hide MatchesSerial, Decide, Serial, Recent, Pruned, Inv;
    match step {
      case Prune(victims) =>
        PrunedUnseen(s.Rows(p), if p in victims then victims[p] else {}, s.now, s.now);
      case Tick(later) =>
        AlikeLater(s.Rows(p), Serial(s.Log(p)), s.now, later);
      case _ =>
        if Concerns(step, p) {
          OwnStepKeepsPair(s, step);
        } else {
          RowsUntouched(s, step, p);
          LogUntouched(s, step, p);
          FlightUntouched(s, step, p);
        }
    }
  }

  lemma {:induction false} OwnStepKeepsPair(s: State, step: Step)
    requires Enabled(s, step) && !step.Answer? && !step.Prune? && !step.Tick?
    requires PairInv(s.Rows(step.pair), s.Log(step.pair), s.FlightOf(step.pair), s.now)
    ensures var s' := Next(s, step);
            PairInv(s'.Rows(step.pair), s'.Log(step.pair), s'.FlightOf(step.pair), s'.now)
  {
    hide MatchesSerial, Decide, Serial, Recent, Pruned;
    var p := step.pair;
    if step.Check? {
      CheckKeepsPair(s.Rows(p), s.Log(p), s.flights[p].req, s.now);
    }
    if step.Commit? {
      var Flight(req, Written(at, ok)) := s.flights[p];
      CommitKeepsPair(s.Rows(p), s.Log(p), req, at, ok, s.now);
    }
  }

  lemma {:induction false} RunKeepsInv(s: State, steps: seq<Step>)
    requires Inv(s) && ValidRun(s, steps)
    ensures Inv(Final(s, steps))
    decreases |steps|
  {
    hide PairInv, Next;
    if steps != [] {
      forall p
        ensures var s' := Next(s, steps[0]); PairInv(s'.Rows(p), s'.Log(p), s'.FlightOf(p), s'.now)
      {
        StepKeepsPair(s, steps[0], p);
      }
      RunKeepsInv(Next(s, steps[0]), steps[1..]);
    }
  }

  /** Serializability: under any interleaving of logins, crashes and maintenance passes, the lock
      holders of a pair get exactly the verdicts of running them one after another without any
      pruning, and every later decision sees the failure history of that serial run. */
  lemma {:induction false} Serializable(steps: seq<Step>, p: Pair)
    requires ValidRun(INIT, steps)
    ensures var s := Final(INIT, steps);
            && MatchesSerial(s.Log(p))
            && forall t :: t >= s.now ==> Decide(s.Rows(p), t) == Decide(Serial(s.Log(p)), t)
  {
    RunKeepsInv(INIT, steps);
    var s := Final(INIT, steps);
    assert PairInv(s.Rows(p), s.Log(p), s.FlightOf(p), s.now);
    forall t | t >= s.now ensures Decide(s.Rows(p), t) == Decide(Serial(s.Log(p)), t) {
      AlikeLater(s.Rows(p), Serial(s.Log(p)), s.now, t);
    }
  }

  // ----- the bound over concurrent runs -----

  /** How many of these ended lock holders were admitted and failed. */
  function FailedIn(log: seq<Entry>): nat {
    if log == [] then 0
    else
      var e := log[|log| - 1];
      FailedIn(log[..|log| - 1]) + if e.verdict.Admit? && !e.ok then 1 else 0
  }

  lemma {:induction false} RunSplits(history: seq<int>, a: seq<Attempt>, b: seq<Attempt>)
    ensures Run(history, a + b) == Run(Run(history, a), b)
  {
    if b == [] {
      assert a + b == a;
    } else {
      var n := |b| - 1;
      assert (a + b)[..|a + b| - 1] == a + b[..n];
      RunSplits(history, a, b[..n]);
    }
  }

  /** The serial history before entry k of a stretch, counted from the start of the stretch. */
  lemma StretchHistory(log: seq<Entry>, i: nat, j: nat, k: nat)
    requires i <= j <= |log| && k <= j - i
    ensures Serial(log[..i + k]) == Run(Serial(log[..i]), Attempts(log[i..j])[..k])
  {
    var stretch := Attempts(log[i..j])[..k];
    assert Attempts(log[..i + k]) == Attempts(log[..i]) + stretch;
    RunSplits([], Attempts(log[..i]), stretch);
  }

  lemma {:induction false} FailedAreFailures(log: seq<Entry>, i: nat, j: nat)
    requires MatchesSerial(log) && i <= j <= |log|
    ensures FailedIn(log[i..j]) == |Failures(Serial(log[..i]), Attempts(log[i..j]))|
  {
    hide Serial, Decide;
    if i < j {
      FailedAreFailures(log, i, j - 1);
      StretchHistory(log, i, j, j - 1 - i);
      assert log[i..j][..j - 1 - i] == log[i..j - 1];
      assert Attempts(log[i..j])[..j - 1 - i] == Attempts(log[i..j - 1]);
      assert log[j - 1].verdict == Decide(Serial(log[..j - 1]), log[j - 1].at);
    }
  }

  /** In every reachable state of any concurrent run, any stretch of a pair's log shorter than the
      lookback in which nobody logged in holds at most 33 admitted failures. */
  lemma AtMost33Concurrent(steps: seq<Step>, p: Pair, i: nat, j: nat)
    requires ValidRun(INIT, steps)
    requires var log := Final(INIT, steps).Log(p);
             && i < j <= |log|
             && log[j - 1].at - log[i].at < LOOKBACK
             && forall k :: i <= k < j ==> !(log[k].verdict.Admit? && log[k].ok)
    ensures FailedIn(Final(INIT, steps).Log(p)[i..j]) <= 33
  {
    hide Serial, Decide, Final;
    Serializable(steps, p);
    var log := Final(INIT, steps).Log(p);
    var stretch := Attempts(log[i..j]);
    assert InTimeOrder(stretch) by {
      forall a, b | 0 <= a < b < |stretch| ensures stretch[a].at <= stretch[b].at {
        assert Attempts(log)[i + a].at <= Attempts(log)[i + b].at;
      }
    }
    forall n | 0 <= n < |stretch| && stretch[n].ok
      ensures Decide(Run(Serial(log[..i]), stretch[..n]), stretch[n].at).Refuse?
    {
      StretchHistory(log, i, j, n);
      assert log[i + n].verdict == Decide(Serial(log[..i + n]), log[i + n].at);
    }
    FailedAreFailures(log, i, j);
    AtMost33Failures(Serial(log[..i]), stretch);
  }

  // ----- a recorded failure survives its 401 -----

  /** Some entry of a log is this request's, admitted and with this outcome. */
  ghost predicate Records(log: seq<Entry>, req: nat, ok: bool) {
    exists k :: 0 <= k < |log| && log[k].req == req && log[k].verdict.Admit? && log[k].ok == ok
  }

  ghost predicate EndedRecorded(s: State) {
    forall req :: req in s.ended ==> Records(s.Log(s.ended[req].0), req, s.ended[req].1)
  }

  ghost predicate RepliesMatch(s: State) {
    forall req :: req in s.replies && (s.replies[req].Unauthorized? || s.replies[req].Token?) ==>
      req in s.ended && s.ended[req].1 == s.replies[req].Token?
  }

  ghost predicate RepliesInv(s: State) {
    EndedRecorded(s) && RepliesMatch(s) && Distinct(s)
  }

  /** Every request in flight holds one lock and has not been answered. */
  ghost predicate Distinct(s: State) {
    && (forall p :: p in s.flights ==> s.flights[p].req !in s.ended && s.flights[p].req !in s.replies)
    && (forall p, q :: p in s.flights && q in s.flights && s.flights[p].req == s.flights[q].req ==> p == q)
  }

  lemma RequestsStayDistinct(s: State, step: Step)
    requires Distinct(s) && Enabled(s, step)
    ensures Distinct(Next(s, step))
  {
    hide Next, Distinct;
    if step.TryLock? {
      NewRequest(s, step.req, step.pair);
    } else {
      FlightsShrink(s, step);
      SameOrFewer(s, Next(s, step));
    }
  }

  lemma FlightsShrink(s: State, step: Step)
    requires Distinct(s) && Enabled(s, step) && !step.TryLock?
    ensures var s' := Next(s, step);
            forall p :: p in s'.flights ==>
              && p in s.flights && s'.flights[p].req == s.flights[p].req
              && s'.flights[p].req !in s'.ended && s'.flights[p].req !in s'.replies
  {
    hide Decide, Pruned;
  }

  lemma NewRequest(s: State, req: nat, p: Pair)
    requires Distinct(s) && Unseen(s, req)
    ensures Distinct(Next(s, TryLock(req, p)))
  {
  }

  lemma SameOrFewer(s: State, s': State)
    requires Distinct(s)
    requires forall p :: p in s'.flights ==> p in s.flights && s'.flights[p].req == s.flights[p].req
    requires forall p :: p in s'.flights ==> s'.flights[p].req !in s'.ended && s'.flights[p].req !in s'.replies
    ensures Distinct(s')
  {
  }

  lemma RecordsAppend(log: seq<Entry>, e: Entry, req: nat, ok: bool)
    ensures Records(log, req, ok) ==> Records(log + [e], req, ok)
    ensures e.req == req && e.verdict.Admit? && e.ok == ok ==> Records(log + [e], req, ok)
  {
    var all := log + [e];
    assert all[|log|] == e;
    if Records(log, req, ok) {
      var k :| 0 <= k < |log| && log[k].req == req && log[k].verdict.Admit? && log[k].ok == ok;
      assert all[k] == log[k];
    }
  }

  lemma LogStep(s: State, step: Step, p: Pair) returns (e: Entry)
    requires Enabled(s, step)
    ensures Next(s, step).Log(p) == s.Log(p) || Next(s, step).Log(p) == s.Log(p) + [e]
    ensures step == Commit(p) ==>
              && Next(s, step).Log(p) == s.Log(p) + [e]
              && e.req == s.flights[p].req && e.verdict.Admit? && e.ok == s.flights[p].phase.ok
  {
    hide Decide, Pruned;
    var grown, n := Next(s, step).Log(p), |s.Log(p)|;
    e := if |grown| > n then grown[n] else Entry(0, 0, Admit, false);
  }

  lemma EndedStep(s: State, step: Step, req: nat)
    requires Enabled(s, step) && req in Next(s, step).ended
    ensures (req in s.ended && Next(s, step).ended[req] == s.ended[req])
            || (step.Commit? && req == s.flights[step.pair].req
                && Next(s, step).ended[req] == (step.pair, s.flights[step.pair].phase.ok))
  {
    hide Decide, Pruned;
  }

  lemma EndedStayRecorded(s: State, step: Step)
    requires EndedRecorded(s) && Enabled(s, step)
    ensures EndedRecorded(Next(s, step))
  {
    hide Decide, Records, Pruned, Next;
    var s' := Next(s, step);
    forall req | req in s'.ended ensures Records(s'.Log(s'.ended[req].0), req, s'.ended[req].1) {
      var (p, ok) := s'.ended[req];
      EndedStep(s, step, req);
      var e := LogStep(s, step, p);
      RecordsAppend(s.Log(p), e, req, ok);
    }
  }

  lemma RepliesStayMatched(s: State, step: Step)
    requires RepliesMatch(s) && Distinct(s) && Enabled(s, step)
    ensures RepliesMatch(Next(s, step))
  {
    hide Decide, Pruned;
  }

  lemma {:induction false} RunKeepsReplies(s: State, steps: seq<Step>)
    requires RepliesInv(s) && ValidRun(s, steps)
    ensures RepliesInv(Final(s, steps))
    decreases |steps|
  {
    hide Next, EndedRecorded, RepliesMatch, Distinct;
    if steps != [] {
      EndedStayRecorded(s, steps[0]);
      RepliesStayMatched(s, steps[0]);
      RequestsStayDistinct(s, steps[0]);
      RunKeepsReplies(Next(s, steps[0]), steps[1..]);
    }
  }

  /** Whoever was told 401 has an admitted failure in the log of its pair, and whoever got a token an
      admitted success: the refusal is raised after the record is committed. */
  lemma AnswersAreRecorded(steps: seq<Step>, req: nat)
    requires ValidRun(INIT, steps) && req in Final(INIT, steps).replies
    ensures var s := Final(INIT, steps);
            var reply := s.replies[req];
            reply.Unauthorized? || reply.Token? ==>
              req in s.ended && Records(s.Log(s.ended[req].0), req, reply.Token?)
  {
    RunKeepsReplies(INIT, steps);
  }

  /** Crashes, maintenance and the clock are not held up by anything. */
  lemma AnyMoment(s: State, p: Pair, victims: map<Pair, set<int>>, later: int)
    ensures p in s.flights ==> Enabled(s, Crash(p)) && p !in Next(s, Crash(p)).flights
    ensures Enabled(s, Prune(victims))
    ensures later >= s.now ==> Enabled(s, Tick(later))
  {
  }

  /** A login that nobody disturbs goes through: refused by the check it leaves its pair's failures as they
      are, admitted it ends with its outcome recorded and its answer given, and no other pair changes;
      while another login holds the pair it is turned away at once. */
  lemma LoginGoesThrough(s: State, req: nat, p: Pair, ok: bool)
    requires Unseen(s, req)
    ensures p in s.flights ==> Next(s, TryLock(req, p)) == s.(replies := s.replies[req := Busy])
    ensures p !in s.flights ==>
              var s1 := Next(s, TryLock(req, p));
              && Enabled(s1, Check(p)) && s1.table == s.table
              && var s2 := Next(s1, Check(p));
                 match Decide(s.Rows(p), s.now)
                 case Refuse(remaining) =>
                   && s2.table == s.table && s2.replies == s.replies[req := TooMany(remaining)]
                   && s2.Log(p) == s.Log(p) + [Entry(req, s.now, Refuse(remaining), false)]
                 case Admit =>
                   && Enabled(s2, Verify(p, ok)) && var s3 := Next(s2, Verify(p, ok));
                   && Enabled(s3, Write(p)) && var s4 := Next(s3, Write(p));
                   && Enabled(s4, Commit(p)) && var s5 := Next(s4, Commit(p));
                   && s5.Rows(p) == (if ok then [] else s.Rows(p) + [s.now])
                   && (forall q :: q != p ==> s5.Rows(q) == s.Rows(q))
                   && s5.Log(p) == s.Log(p) + [Entry(req, s.now, Admit, ok)]
                   && Enabled(s5, Answer(req))
                   && Next(s5, Answer(req)).replies == s.replies[req := if ok then Token else Unauthorized]
  {
    hide Decide;
  }

  // ----- one undisturbed login, as the endpoint sequences it -----

  /** What the endpoint works on: the burst limiter, the budgets and the failure table. */
  class Desk {
    const burst: RateLimit.Limiter
    const budgets: Budgets.Store
    const limits: Limits
    var table: map<Pair, seq<int>>

    ghost predicate Valid()
      reads this, burst
    {
      burst.Valid() && burst.window == RateLimit.WINDOW && burst.limit == RateLimit.MAX_ATTEMPTS
    }

    constructor (limits: Limits, clock: int)
      ensures Valid() && fresh(burst) && fresh(budgets) && burst.clock == clock
      ensures table == map[] && budgets.table == map[] && burst.attempts == map[]
      ensures this.limits == limits
    {
      burst := new RateLimit.Limiter(RateLimit.WINDOW, RateLimit.MAX_ATTEMPTS, clock);
      budgets := new Budgets.Store();
      this.limits := limits;
      table := map[];
    }

    function Rows(p: Pair): seq<int>
      reads this
    {
      if p in table then table[p] else []
    }

    method RecordLoginFailure(p: Pair, t: int)
      modifies this
      ensures Rows(p) == old(Rows(p)) + [t]
      ensures forall q :: q != p ==> Rows(q) == old(Rows(q))
    {
      table := table[p := Rows(p) + [t]];
    }

    method RecordLoginSuccess(p: Pair)
      modifies this
      ensures Rows(p) == []
      ensures forall q :: q != p ==> Rows(q) == old(Rows(q))
    {
      table := table - {p};
    }

    /** One login from `client`, whose normalised address is the pair's: the burst limiter first, then
        both budgets, then the try-lock (`held` if another login has it), then check, verify, record and
        commit, and only then the refusal. A login turned away at one stage leaves the later ones
        untouched; one that reaches the lock keeps its budget units whatever the answer; one that gets
        the lock changes its own pair as a serial run step does, and no other pair. */
    method Login(p: Pair, client: string, clock: int, t: int, held: bool, ok: bool) returns (reply: Reply)
      requires Valid() && clock >= burst.clock
      modifies this, burst, budgets
      ensures Valid()
      ensures forall q :: q != p ==> Rows(q) == old(Rows(q))
      ensures var open := RateLimit.Admits(old(burst.Admitted(client)), clock, RateLimit.WINDOW, RateLimit.MAX_ATTEMPTS);
              var (budget, charged) := Budgets.Request(old(budgets.table), Charges(p.ip, p.fingerprint, limits), t);
              if !open then
                reply == RateLimited && budgets.table == old(budgets.table) && table == old(table)
              else
                && budgets.table == charged
                && match budget
                   case Refused(_, wait) => reply == TooMany(wait) && charged == old(budgets.table) && table == old(table)
                   case Invalid => reply == ServerError && charged == old(budgets.table) && table == old(table)
                   case Committed =>
                     if held then reply == Busy && table == old(table) else
                     && Rows(p) == After(old(Rows(p)), Attempt(t, ok))
                     && reply == match Decide(old(Rows(p)), t)
                                 case Refuse(remaining) => TooMany(remaining)
                                 case Admit => if ok then Token else Unauthorized
    {
      hide Budgets.Request, Budgets.ReserveAll, RateLimit.Tracks, CooldownFor;
      var open := burst.CheckRateLimit(client, clock);
      if !open {
        return RateLimited;
      }
      var budget := budgets.ReserveBudgets(Charges(p.ip, p.fingerprint, limits), t);
      if budget.Refused? {
        return TooMany(budget.retryAfter);
      }
      if budget.Invalid? {
        return ServerError;
      }
      if held {
        return Busy;
      }
      var verdict := Decide(Rows(p), t);
      if verdict.Refuse? {
        return TooMany(verdict.remaining);
      }
      if ok {
        RecordLoginSuccess(p);
      } else {
        RecordLoginFailure(p, t);
      }
      if !ok {
        return Unauthorized;
      }
      return Token;
    }
  }
}
