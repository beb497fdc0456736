/** The notification delivery queue and one undisturbed pass over it (src/omni/alerts/notify.py).
    A send is an oracle: it succeeds or fails. Times are integers (microseconds). */
module Delivery {
  import opened Clock
  import opened Options
  import opened Powers

  const BACKOFF_BASE: int := 60 * SECOND
  const LEASE: int := 120 * SECOND
  const TTL: int := DAY
  const RETENTION: int := 7 * DAY

  datatype Status = Pending | Delivered | Failed

  datatype Row = Row(status: Status, attempts: nat, nextAt: int, createdAt: int)

  type Queue = map<nat, Row>

  // ----- the statements -----

  predicate Due(row: Row, dueFrom: int) {
    row.status.Pending? && row.nextAt <= dueFrom
  }

  function Expired(rows: Queue, moment: int): Queue {
    map id | id in rows ::
      if rows[id].status.Pending? && rows[id].createdAt < moment - TTL then rows[id].(status := Failed) else rows[id]
  }

  predicate Purgeable(row: Row, moment: int) {
    !row.status.Pending? && row.createdAt < moment - RETENTION
  }

  /** One bounded purge: it removes some of the old terminal rows (the code takes the oldest 1000). */
  function Purged(rows: Queue, moment: int, victims: set<nat>): Queue {
    map id | id in rows && !(id in victims && Purgeable(rows[id], moment)) :: rows[id]
  }

  function Claimed(row: Row, clock: int): Row {
    row.(attempts := row.attempts + 1, nextAt := clock + LEASE)
  }

  /** 60 seconds, doubled for every attempt after the first. */
  function Backoff(attempts: nat): (wait: int)
    ensures wait >= BACKOFF_BASE
  {
    if attempts <= 1 then BACKOFF_BASE else 2 * Backoff(attempts - 1)
  }

  /** The backoff after the k-th attempt is a minute times two to the k - 1. */
  lemma {:induction false} BackoffIsPower(k: nat)
    requires k >= 1
    ensures Backoff(k) == 60 * SECOND * TwoTo(k - 1)
  {
    if k > 1 {
      BackoffIsPower(k - 1);
    }
  }

  /** What the fenced outcome statement writes into a row whose attempt number is k. */
  function Outcome(row: Row, k: nat, ok: bool, maxAttempts: int, clock: int): Row {
    if ok then row.(status := Delivered)
    else if k >= maxAttempts then row.(status := Failed)
    else row.(nextAt := clock + Backoff(k))
  }

  /** The fence: the claim is still the latest one and the row is still open. */
  predicate Fenced(rows: Queue, id: nat, k: nat) {
    id in rows && rows[id].status.Pending? && rows[id].attempts == k
  }

  function Written(rows: Queue, id: nat, k: nat, ok: bool, maxAttempts: int, clock: int): Queue {
    if Fenced(rows, id, k) then rows[id := Outcome(rows[id], k, ok, maxAttempts, clock)] else rows
  }

  // ----- one pass -----

  /** What the outside world does to the i-th claim of a pass: when it is claimed, whether the send
      works, and when the outcome is written. */
  datatype Turn = Turn(claimedAt: int, ok: bool, endedAt: int)

  datatype Counts = Counts(delivered: nat, retried: nat, failed: nat, expired: nat, purged: nat)

  /** The rows two tables disagree on. */
  ghost function Changed(before: Queue, after: Queue): set<nat> {
    set id | id in before && (id !in after || after[id] != before[id])
  }

  /** The row of a claim after its turn, if nobody else touched it. */
  function AfterTurn(row: Row, turn: Turn, maxAttempts: int): Row {
    Outcome(Claimed(row, turn.claimedAt), row.attempts + 1, turn.ok, maxAttempts, turn.endedAt)
  }

  /** The table after the first n claims of a pass went to `claims`, in order. */
  function AfterTurns(rows: Queue, claims: seq<nat>, turns: seq<Turn>, maxAttempts: int): Queue
    requires |claims| <= |turns|
  {
    if claims == [] then rows
    else
      var n := |claims| - 1;
      var before := AfterTurns(rows, claims[..n], turns, maxAttempts);
      if claims[n] in before
      then before[claims[n] := AfterTurn(before[claims[n]], turns[n], maxAttempts)] else before
  }

  /** Distinct claims: the i-th claimed row is its starting row after exactly its own turn, and every
      other row is as it was. */
  lemma {:induction false} OneTurnEach(rows: Queue, claims: seq<nat>, turns: seq<Turn>, maxAttempts: int, id: nat)
    requires |claims| <= |turns| && Distinct(claims)
    requires forall i :: 0 <= i < |claims| ==> claims[i] in rows
    ensures AfterTurns(rows, claims, turns, maxAttempts).Keys == rows.Keys
    ensures forall i :: 0 <= i < |claims| && claims[i] == id ==>
              AfterTurns(rows, claims, turns, maxAttempts)[id] == AfterTurn(rows[id], turns[i], maxAttempts)
    ensures id !in claims && id in rows ==> AfterTurns(rows, claims, turns, maxAttempts)[id] == rows[id]
  {
    hide AfterTurn;
    if claims != [] {
      OneTurnEach(rows, claims[..|claims| - 1], turns, maxAttempts, id);
    }
  }

  /** The claimed rows that ended up in a status. */
  ghost function Left(rows: Queue, claims: seq<nat>, status: Status): set<nat> {
    set id | id in claims && id in rows && rows[id].status == status
  }

  ghost predicate Distinct(s: seq<nat>) {
    forall i, j :: 0 <= i < j < |s| ==> s[i] != s[j]
  }

  lemma {:induction false} OldestDue(rows: Queue, ids: set<nat>, dueFrom: int) returns (id: nat)
    requires forall x :: x in ids ==> x in rows && Due(rows[x], dueFrom)
    requires ids != {}
    ensures id in ids && forall x :: x in ids ==> rows[id].createdAt <= rows[x].createdAt
    decreases |ids|
  {
    id :| id in ids;
    if ids != {id} {
      var rest := OldestDue(rows, ids - {id}, dueFrom);
      if rows[rest].createdAt < rows[id].createdAt {
        id := rest;
      }
    }
  }

  /** The claims took the oldest due rows, oldest first. */
  ghost predicate OldestFirst(start: Queue, claims: seq<nat>, moment: int) {
    forall i, id :: 0 <= i < |claims| && id in start && Due(start[id], moment) && id !in claims[..i] ==>
      claims[i] in start && start[claims[i]].createdAt <= start[id].createdAt
  }

  /** In particular they ascend in age, and no row left waiting is older than one that was taken. */
  lemma OldestTaken(start: Queue, claims: seq<nat>, moment: int)
    requires OldestFirst(start, claims, moment) && Distinct(claims)
    requires forall i :: 0 <= i < |claims| ==> claims[i] in start && Due(start[claims[i]], moment)
    ensures forall i, j :: 0 <= i < j < |claims| ==> start[claims[i]].createdAt <= start[claims[j]].createdAt
    ensures forall i, id :: 0 <= i < |claims| && id in start && Due(start[id], moment) && id !in claims ==>
              start[claims[i]].createdAt <= start[id].createdAt
  {
    forall i, j | 0 <= i < j < |claims| ensures claims[j] !in claims[..i] {
    }
  }

  /** Where a pass stands: every claim so far had its turn, is due no more, and nothing else changed. */
  ghost predicate PassInv(start: Queue, rows: Queue, claims: seq<nat>, turns: seq<Turn>, moment: int, maxAttempts: int) {
    && |claims| <= |turns| && Distinct(claims)
    && rows == AfterTurns(start, claims, turns, maxAttempts) && rows.Keys == start.Keys
    && (forall i :: 0 <= i < |claims| ==> claims[i] in start && Due(start[claims[i]], moment))
    && (forall i :: 0 <= i < |claims| ==> claims[i] in rows && !Due(rows[claims[i]], moment))
    && (forall id :: id in rows && id !in claims ==> rows[id] == start[id])
    && OldestFirst(start, claims, moment)
  }

  lemma PassStarts(rows: Queue, turns: seq<Turn>, moment: int, maxAttempts: int)
    ensures PassInv(rows, rows, [], turns, moment, maxAttempts)
    ensures forall status :: |Left(rows, [], status)| == 0
  {
    assert forall status :: Left(rows, [], status) == {};
  }

  lemma PassEnds(start: Queue, rows: Queue, claims: seq<nat>, turns: seq<Turn>, moment: int, maxAttempts: int)
    requires PassInv(start, rows, claims, turns, moment, maxAttempts)
    ensures |claims| <= |turns| && Distinct(claims) && rows == AfterTurns(start, claims, turns, maxAttempts)
    ensures forall i :: 0 <= i < |claims| ==> claims[i] in start && Due(start[claims[i]], moment)
    ensures OldestFirst(start, claims, moment)
  {
  }

  lemma TurnKeepsPass(start: Queue, rows: Queue, claims: seq<nat>, turns: seq<Turn>, moment: int, maxAttempts: int,
                      id: nat)
    requires PassInv(start, rows, claims, turns, moment, maxAttempts) && |claims| < |turns|
    requires id in rows && Due(rows[id], moment)
    requires forall x :: x in rows && Due(rows[x], moment) ==> rows[id].createdAt <= rows[x].createdAt
    requires moment <= turns[|claims|].claimedAt <= turns[|claims|].endedAt
    ensures PassInv(start, rows[id := AfterTurn(rows[id], turns[|claims|], maxAttempts)], claims + [id],
                    turns, moment, maxAttempts)
    ensures id in start && rows[id] == start[id] && id !in claims
  {
    hide OldestFirst, AfterTurn, AfterTurns;
    assert id !in claims;
    AfterOneMore(start, claims, id, turns, maxAttempts);
    TurnHides(rows[id], turns[|claims|], moment, maxAttempts);
    OldestOneMore(start, rows, claims, moment, id);
  }

  lemma AfterOneMore(rows: Queue, claims: seq<nat>, id: nat, turns: seq<Turn>, maxAttempts: int)
    requires |claims| < |turns| && id in AfterTurns(rows, claims, turns, maxAttempts)
    ensures var before := AfterTurns(rows, claims, turns, maxAttempts);
            AfterTurns(rows, claims + [id], turns, maxAttempts)
            == before[id := AfterTurn(before[id], turns[|claims|], maxAttempts)]
  {
    assert (claims + [id])[..|claims|] == claims;
  }

  lemma TurnHides(row: Row, turn: Turn, moment: int, maxAttempts: int)
    requires row.status.Pending? && moment <= turn.claimedAt <= turn.endedAt
    ensures !Due(AfterTurn(row, turn, maxAttempts), moment)
  {
  }

  /** Claim and outcome of one row, with nobody in between, are its turn. */
  lemma TurnApplied(rows: Queue, id: nat, turn: Turn, maxAttempts: int)
    requires id in rows && rows[id].status.Pending?
    ensures var claimed := rows[id := Claimed(rows[id], turn.claimedAt)];
            var k := rows[id].attempts + 1;
            && claimed[id].attempts == k && Fenced(claimed, id, k)
            && Written(claimed, id, k, turn.ok, maxAttempts, turn.endedAt)
               == rows[id := AfterTurn(rows[id], turn, maxAttempts)]
  {
  }

  /** A turn adds its row to those left in the status it ended with. */
  lemma LeftOneMore(rows: Queue, claims: seq<nat>, id: nat, after: Row)
    requires id in rows && id !in claims
    ensures forall status :: |Left(rows[id := after], claims + [id], status)|
                             == |Left(rows, claims, status)| + if after.status == status then 1 else 0
  {
    var more := rows[id := after];
    forall status
      ensures |Left(more, claims + [id], status)| == |Left(rows, claims, status)| + if after.status == status then 1 else 0
    {
      assert Left(more, claims + [id], status) == Left(rows, claims, status) + if after.status == status then {id} else {};
    }
  }

  lemma TurnStatus(row: Row, turn: Turn, maxAttempts: int)
    requires row.status.Pending?
    ensures AfterTurn(row, turn, maxAttempts).status ==
            if turn.ok then Delivered else if row.attempts + 1 >= maxAttempts then Failed else Pending
  {
  }

  /** What a pass leaves behind, in the terms of the table before it. A claimed row was open, due and inside
      its delivery window; its attempt is counted; a working send has delivered it, a failed one has closed
      it only at the attempt limit, and otherwise it stays open and due a doubling backoff later. An
      unclaimed row is as it was, except that it has failed if it was open and past its window, and is
      gone if it was taken by the purge and a week old. */
  lemma {:induction false} PassLeaves(before: Queue, rows: Queue, claims: seq<nat>, turns: seq<Turn>, moment: int,
                                      maxAttempts: int, victims: set<nat>)
    requires |claims| <= |turns| && Distinct(claims)
    requires var start := Purged(Expired(before, moment), moment, victims);
             && (forall i :: 0 <= i < |claims| ==> claims[i] in start && Due(start[claims[i]], moment))
             && rows == AfterTurns(start, claims, turns, maxAttempts)
    ensures forall i :: 0 <= i < |claims| ==>
              && claims[i] in before && claims[i] in rows
              && var row, after, turn := before[claims[i]], rows[claims[i]], turns[i];
                 && row.status.Pending? && row.nextAt <= moment && row.createdAt >= moment - DAY
                 && after.attempts == row.attempts + 1 && after.createdAt == row.createdAt
                 && (turn.ok ==> after.status.Delivered?)
                 && (!turn.ok && row.attempts + 1 >= maxAttempts ==> after.status.Failed?)
                 && (!turn.ok && row.attempts + 1 < maxAttempts ==>
                       after.status.Pending? && after.nextAt == turn.endedAt + 60 * SECOND * TwoTo(row.attempts))
    ensures forall id :: id in before && id !in claims ==>
              && (id !in rows <==> id in victims && before[id].createdAt < moment - 7 * DAY)
              && (id in rows ==>
                    rows[id] == if before[id].status.Pending? && before[id].createdAt < moment - DAY
                                then before[id].(status := Failed) else before[id])
    ensures forall id :: id in rows ==> id in before
  {
    hide AfterTurns, AfterTurn;
    var start := Purged(Expired(before, moment), moment, victims);
    forall i | 0 <= i < |claims|
      ensures claims[i] in rows && rows[claims[i]] == AfterTurn(start[claims[i]], turns[i], maxAttempts)
      ensures start[claims[i]] == before[claims[i]] && before[claims[i]].createdAt >= moment - DAY
    {
      OneTurnEach(start, claims, turns, maxAttempts, claims[i]);
    }
    forall i | 0 <= i < |claims|
      ensures var row, after, turn := before[claims[i]], rows[claims[i]], turns[i];
              && after.attempts == row.attempts + 1 && after.createdAt == row.createdAt
              && (turn.ok ==> after.status.Delivered?)
              && (!turn.ok && row.attempts + 1 >= maxAttempts ==> after.status.Failed?)
              && (!turn.ok && row.attempts + 1 < maxAttempts ==>
                    after.status.Pending? && after.nextAt == turn.endedAt + 60 * SECOND * TwoTo(row.attempts))
    {
      TurnMeans(before[claims[i]], turns[i], maxAttempts);
    }
    forall id | id in before && id !in claims
      ensures id in rows <==> id in start
      ensures id in rows ==> rows[id] == start[id]
    {
      OneTurnEach(start, claims, turns, maxAttempts, id);
    }
    OneTurnEach(start, claims, turns, maxAttempts, 0);
  }

  lemma TurnMeans(row: Row, turn: Turn, maxAttempts: int)
    requires row.status.Pending?
    ensures var after := AfterTurn(row, turn, maxAttempts);
            && after.attempts == row.attempts + 1 && after.createdAt == row.createdAt
            && (turn.ok ==> after.status.Delivered?)
            && (!turn.ok && row.attempts + 1 >= maxAttempts ==> after.status.Failed?)
            && (!turn.ok && row.attempts + 1 < maxAttempts ==>
                  after.status.Pending? && after.nextAt == turn.endedAt + 60 * SECOND * TwoTo(row.attempts))
  {
    BackoffIsPower(row.attempts + 1);
  }

  lemma OldestOneMore(start: Queue, rows: Queue, claims: seq<nat>, moment: int, id: nat)
    requires OldestFirst(start, claims, moment) && id !in claims && rows.Keys == start.Keys
    requires forall x :: x in rows && x !in claims ==> rows[x] == start[x]
    requires id in rows && forall x :: x in rows && Due(rows[x], moment) ==> rows[id].createdAt <= rows[x].createdAt
    ensures OldestFirst(start, claims + [id], moment)
  {
    var all := claims + [id];
    forall i, x | 0 <= i < |all| && x in start && Due(start[x], moment) && x !in all[..i]
      ensures all[i] in start && start[all[i]].createdAt <= start[x].createdAt
    {
      assert all[..i] == if i < |claims| then claims[..i] else claims;
    }
  }

  function Removed(rows: Queue, moment: int, victims: set<nat>): set<nat> {
    set id | id in rows && id in victims && Purgeable(rows[id], moment)
  }

  lemma PurgedCount(rows: Queue, moment: int, victims: set<nat>)
    ensures |Removed(rows, moment, victims)| == |rows| - |Purged(rows, moment, victims)|
  {
    PurgedKeys(rows, moment, victims);
    hide Removed, Purged;
    MapSize(rows);
    MapSize(Purged(rows, moment, victims));
  }

  lemma PurgedKeys(rows: Queue, moment: int, victims: set<nat>)
    ensures Removed(rows, moment, victims) <= rows.Keys
    ensures Purged(rows, moment, victims).Keys == rows.Keys - Removed(rows, moment, victims)
  {
    hide Purgeable;
  }

  lemma MapSize(rows: Queue)
    ensures |rows| == |rows.Keys|
  {
  }

  lemma ExpiredKeys(rows: Queue, moment: int)
    ensures |Expired(rows, moment)| == |rows|
  {
    assert Expired(rows, moment).Keys == rows.Keys;
    MapSize(rows);
    MapSize(Expired(rows, moment));
  }

  lemma ExpiredChanges(rows: Queue, moment: int)
    ensures Changed(rows, Expired(rows, moment)) == Lapsed(rows, moment)
  {
  }

  function Lapsed(rows: Queue, moment: int): set<nat> {
    set id | id in rows && rows[id].status.Pending? && rows[id].createdAt < moment - TTL
  }

  class DeliveryQueue {
    var rows: Queue

    constructor ()
      ensures rows == map[]
    {
      rows := map[];
    }

    /** One row per channel is added, due at once: the next pass finds it. */
    method Enqueue(id: nat, now: int)
      requires id !in rows
      modifies this
      ensures rows == old(rows)[id := Row(Pending, 0, now, now)]
    {
      rows := rows[id := Row(Pending, 0, now, now)];
    }

    /** Claim the oldest due row: count the attempt and hide the row for the lease. */
    method ClaimOneDueRow(dueFrom: int, clock: int) returns (claim: Option<nat>)
      modifies this
      ensures claim.None? <==> forall id :: id in old(rows) ==> !Due(old(rows)[id], dueFrom)
      ensures claim.None? ==> rows == old(rows)
      ensures claim.Some? ==>
                && claim.value in old(rows) && Due(old(rows)[claim.value], dueFrom)
                && (forall id :: id in old(rows) && Due(old(rows)[id], dueFrom) ==>
                      old(rows)[claim.value].createdAt <= old(rows)[id].createdAt)
                && rows == old(rows)[claim.value := Claimed(old(rows)[claim.value], clock)]
    {
      var due := set id | id in rows && Due(rows[id], dueFrom);
      if due == {} {
        assert forall id :: id in rows && Due(rows[id], dueFrom) ==> id in due;
        return None;
      }
      ghost var oldest := OldestDue(rows, due, dueFrom);
      var id :| id in due && forall x :: x in due ==> rows[id].createdAt <= rows[x].createdAt;
      assert forall x :: x in rows && Due(rows[x], dueFrom) ==> x in due;
      rows := rows[id := Claimed(rows[id], clock)];
      return Some(id);
    }

    /** The fenced outcome statement; `applied` is whether it matched the row. */
    method WriteOutcome(id: nat, k: nat, ok: bool, maxAttempts: int, clock: int) returns (applied: bool)
      modifies this
      ensures applied <==> Fenced(old(rows), id, k)
      ensures rows == Written(old(rows), id, k, ok, maxAttempts, clock)
    {
      applied := Fenced(rows, id, k);
      if applied {
        rows := rows[id := Outcome(rows[id], k, ok, maxAttempts, clock)];
      }
    }

    /** One pass with nobody else at work: it expires and purges, then gives each of at most
        |turns| due rows exactly one turn, oldest first. No row gets two turns, every turn's outcome is
        applied and counted once, and it stops early only when nothing is due any more. */
    method ProcessDeliveryQueue(moment: int, maxAttempts: int, victims: set<nat>, turns: seq<Turn>)
      returns (counts: Counts, claims: seq<nat>)
      requires forall i :: 0 <= i < |turns| ==> moment <= turns[i].claimedAt <= turns[i].endedAt
      modifies this
      ensures var start := Purged(Expired(old(rows), moment), moment, victims);
              && |claims| <= |turns| && Distinct(claims)
              && (forall i :: 0 <= i < |claims| ==> claims[i] in start && Due(start[claims[i]], moment))
              && rows == AfterTurns(start, claims, turns, maxAttempts)
              && (|claims| < |turns| ==> forall id :: id in rows ==> !Due(rows[id], moment))
              && OldestFirst(start, claims, moment)
              && counts.delivered == |Left(rows, claims, Delivered)|
              && counts.failed == |Left(rows, claims, Failed)|
              && counts.retried == |Left(rows, claims, Pending)|
              && counts.expired == |Changed(old(rows), Expired(old(rows), moment))|
              && counts.purged == |old(rows)| - |start|
    {
      hide PassInv, AfterTurns, Expired, Purged, Backoff, OldestFirst, Changed, Lapsed, Removed,
           Left, Written, AfterTurn, Distinct;
      ExpiredChanges(rows, moment);
      var expired := |Lapsed(rows, moment)|;
      rows := Expired(rows, moment);
      ExpiredKeys(old(rows), moment);
      PurgedCount(rows, moment, victims);
      var purged := |Removed(rows, moment, victims)|;
      rows := Purged(rows, moment, victims);
      ghost var start := rows;
      counts, claims := Counts(0, 0, 0, expired, purged), [];
      PassStarts(start, turns, moment, maxAttempts);
      while |claims| < |turns|
        invariant |claims| <= |turns|
        invariant PassInv(start, rows, claims, turns, moment, maxAttempts)
        invariant forall i :: 0 <= i < |claims| ==> claims[i] in start
        invariant counts.delivered == |Left(rows, claims, Delivered)|
        invariant counts.failed == |Left(rows, claims, Failed)|
        invariant counts.retried == |Left(rows, claims, Pending)|
        invariant counts.expired == expired && counts.purged == purged
        decreases |turns| - |claims|
      {
        ghost var before := rows;
        var turn := turns[|claims|];
        var claim := ClaimOneDueRow(moment, turn.claimedAt);
        if claim.None? {
          PassEnds(start, rows, claims, turns, moment, maxAttempts);
          return;
        }
        TurnApplied(before, claim.value, turn, maxAttempts);
        var id, k := claim.value, rows[claim.value].attempts;
        var applied := WriteOutcome(id, k, turn.ok, maxAttempts, turn.endedAt);
        if applied {
          counts :=
            if turn.ok then counts.(delivered := counts.delivered + 1)
            else if k >= maxAttempts then counts.(failed := counts.failed + 1)
            else counts.(retried := counts.retried + 1);
        }
        TurnKeepsPass(start, before, claims, turns, moment, maxAttempts, id);
        TurnStatus(before[id], turn, maxAttempts);
        LeftOneMore(before, claims, id, rows[id]);
        claims := claims + [id];
        PassEnds(start, rows, claims, turns, moment, maxAttempts);
      }
      PassEnds(start, rows, claims, turns, moment, maxAttempts);
    }
  }
}
