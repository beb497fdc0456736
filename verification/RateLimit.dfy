/** The per-process sliding-window burst guard (src/omni/auth/ratelimit.py).
    Times are integers on one monotone clock. */
module RateLimit {
  import opened Clock

  /** How many times of `history` are at or after `cutoff`. */
  ghost function Since(history: seq<int>, cutoff: int): nat {
    if history == [] then 0
    else Since(history[..|history| - 1], cutoff) + (if history[|history| - 1] >= cutoff then 1 else 0)
  }

  /** How many times of `history` lie in the closed interval from a to b. */
  ghost function Within(history: seq<int>, a: int, b: int): nat {
    if history == [] then 0
    else Within(history[..|history| - 1], a, b) + (if a <= history[|history| - 1] <= b then 1 else 0)
  }

  /** The rule: fewer than `limit` admitted attempts lie within the last `window`. */
  ghost predicate Admits(history: seq<int>, now: int, window: int, limit: nat) {
    Since(history, now - window) < limit
  }

  ghost predicate Sorted(s: seq<int>) {
    forall i, j :: 0 <= i < j < |s| ==> s[i] <= s[j]
  }

  /** Every admission is more than `window` after the one `limit` places before it. */
  ghost predicate Spaced(history: seq<int>, window: int, limit: nat) {
    forall i, j :: 0 <= i && j == i + limit && j < |history| ==> history[j] - history[i] > window
  }

  /** In a sorted history the recent attempts are a suffix. */
  lemma {:induction false} SinceSuffix(history: seq<int>, cutoff: int, k: nat)
    requires Sorted(history) && k <= |history|
    requires forall i :: 0 <= i < k ==> history[i] < cutoff
    requires forall i :: k <= i < |history| ==> history[i] >= cutoff
    ensures Since(history, cutoff) == |history| - k
  {
    if history != [] {
      var n := |history| - 1;
      SinceSuffix(history[..n], cutoff, if k <= n then k else n);
    }
  }

  lemma SortedSplit(history: seq<int>, cutoff: int) returns (k: nat)
    requires Sorted(history)
    ensures k <= |history|
    ensures forall i :: 0 <= i < k ==> history[i] < cutoff
    ensures forall i :: k <= i < |history| ==> history[i] >= cutoff
  {
    k := 0;
    while k < |history| && history[k] < cutoff
      invariant k <= |history| && forall i :: 0 <= i < k ==> history[i] < cutoff
    {
      k := k + 1;
    }
  }

  /** When the door is open again: as soon as the attempt `limit` places back has left the window,
      however many refused attempts came in between. */
  lemma DoorOpensIff(history: seq<int>, now: int, window: int, limit: nat)
    requires Sorted(history) && limit > 0
    ensures Admits(history, now, window, limit) <==>
            |history| < limit || history[|history| - limit] < now - window
  {
    var k := SortedSplit(history, now - window);
    SinceSuffix(history, now - window, k);
  }

  lemma AdmissionKeepsSpacing(history: seq<int>, now: int, window: int, limit: nat)
    requires Sorted(history) && Spaced(history, window, limit)
    requires history != [] ==> history[|history| - 1] <= now
    requires Admits(history, now, window, limit)
    ensures Sorted(history + [now]) && Spaced(history + [now], window, limit)
  {
    DoorOpensIff(history, now, window, limit);
  }

  /** Spaced admissions never exceed the limit in any closed interval as long as the window. */
  lemma WindowHoldsAtMostLimit(history: seq<int>, window: int, limit: nat, a: int)
    requires Sorted(history) && Spaced(history, window, limit)
    requires limit > 0 || history == []
    ensures Within(history, a, a + window) <= limit
  {
    var k := SortedSplit(history, a);
    var m := SortedSplit(history, a + window + 1);
    WithinSlice(history, a, a + window, k, m);
    if k + limit < |history| {
      assert history[k + limit] > history[k] + window >= a + window;
      assert m <= k + limit;
    }
  }

  lemma {:induction false} WithinSlice(history: seq<int>, a: int, b: int, k: nat, m: nat)
    requires k <= |history| && m <= |history|
    requires forall i :: 0 <= i < |history| ==> (history[i] < a <==> i < k)
    requires forall i :: 0 <= i < |history| ==> (history[i] > b <==> i >= m)
    ensures Within(history, a, b) == if m > k then m - k else 0
  {
    if history != [] {
      var n := |history| - 1;
      WithinSlice(history[..n], a, b, if k <= n then k else n, if m <= n then m else n);
    }
  }

  // ----- sustained bursts -----

  const WINDOW: int := 60 * SECOND
  const MAX_ATTEMPTS: nat := 5

  /** The record of admissions after these attempts. */
  ghost function Recorded(history: seq<int>, attempts: seq<int>, window: int, limit: nat): seq<int>
    decreases |attempts|
  {
    if attempts == [] then history
    else
      var after := if Admits(history, attempts[0], window, limit) then history + [attempts[0]] else history;
      Recorded(after, attempts[1..], window, limit)
  }

  /** When the door opens again: after the admission `limit` places back has left the window. */
  ghost predicate ClosedUntil(history: seq<int>, opens: int, window: int, limit: nat) {
    0 < limit <= |history| && opens == history[|history| - limit] + window
  }

  lemma {:induction false} RecordGrows(history: seq<int>, attempts: seq<int>, window: int, limit: nat)
    ensures |Recorded(history, attempts, window, limit)| >= |history|
    decreases |attempts|
  {
    if attempts != [] {
      var after := if Admits(history, attempts[0], window, limit) then history + [attempts[0]] else history;
      RecordGrows(after, attempts[1..], window, limit);
    }
  }

  /** The door stays closed through a burst exactly when the burst is over by the time the oldest of the
      last `limit` admissions leaves the window: refused attempts do not keep it shut. */
  lemma {:induction false} StaysClosedIff(history: seq<int>, attempts: seq<int>, opens: int, window: int, limit: nat)
    requires Sorted(history) && Sorted(attempts) && ClosedUntil(history, opens, window, limit)
    ensures Recorded(history, attempts, window, limit) == history <==>
            attempts == [] || attempts[|attempts| - 1] <= opens
    decreases |attempts|
  {
    if attempts != [] {
      DoorOpensIff(history, attempts[0], window, limit);
      if attempts[0] > opens {
        RecordGrows(history + [attempts[0]], attempts[1..], window, limit);
      } else {
        StaysClosedIff(history, attempts[1..], opens, window, limit);
      }
    }
  }

  /** How soon a client that keeps trying is let in: with gaps of at most `gap` between its attempts,
      within `gap` after the door opens, all attempts before that one being refused. */
  lemma {:induction false} LetInWithin(history: seq<int>, attempts: seq<int>, opens: int, gap: int, window: int, limit: nat)
    returns (i: nat)
    requires Sorted(history) && Sorted(attempts) && ClosedUntil(history, opens, window, limit)
    requires attempts != [] && attempts[0] <= opens < attempts[|attempts| - 1]
    requires forall k :: 0 <= k < |attempts| - 1 ==> attempts[k + 1] - attempts[k] <= gap
    ensures i < |attempts| && opens < attempts[i] <= opens + gap
    ensures Recorded(history, attempts[..i], window, limit) == history
    ensures Admits(history, attempts[i], window, limit)
  {
    i := 1;
    while attempts[i] <= opens
      invariant 1 <= i < |attempts| && attempts[i - 1] <= opens
      decreases |attempts| - i
    {
      i := i + 1;
    }
    assert attempts[(i - 1) + 1] - attempts[i - 1] <= gap;
    assert attempts[..i][|attempts[..i]| - 1] <= opens;
    StaysClosedIff(history, attempts[..i], opens, window, limit);
    DoorOpensIff(history, attempts[i], window, limit);
  }

  const BURST: seq<int> := [0, 0, 0, 0, 0]
  const HAMMERING: seq<int> := [15 * SECOND, 30 * SECOND, 45 * SECOND, 60 * SECOND, 60 * SECOND + 1]

  /** After a burst of five, attempts every fifteen seconds are refused for exactly a minute; the next one is
      let in. */
  lemma SustainedBurstLetIn()
    ensures Recorded([], BURST, WINDOW, MAX_ATTEMPTS) == BURST
    ensures Recorded(BURST, HAMMERING[..4], WINDOW, MAX_ATTEMPTS) == BURST
    ensures Admits(BURST, HAMMERING[4], WINDOW, MAX_ATTEMPTS)
  {
    BurstAdmitted(0);
    assert BURST[..0] == [] && BURST[0..] == BURST;
    StaysClosedIff(BURST, HAMMERING[..4], WINDOW, WINDOW, MAX_ATTEMPTS);
    DoorOpensIff(BURST, HAMMERING[4], WINDOW, MAX_ATTEMPTS);
  }

  lemma {:induction false} BurstAdmitted(n: nat)
    requires n <= |BURST|
    ensures Recorded(BURST[..n], BURST[n..], WINDOW, MAX_ATTEMPTS) == BURST
    decreases |BURST| - n
  {
    if n < |BURST| {
      DoorOpensIff(BURST[..n], 0, WINDOW, MAX_ATTEMPTS);
      BurstAdmitted(n + 1);
      assert BURST[n..][1..] == BURST[n + 1..] && BURST[..n] + [0] == BURST[..n + 1];
    } else {
      assert BURST[..n] == BURST && BURST[n..] == [];
    }
  }

  // ----- the deque -----

  /** A deque `q` stands for the whole record `history` of its client: it is that record without
      the attempts that have left the window for good. */
  ghost predicate Tracks(q: seq<int>, history: seq<int>, window: int, limit: nat, clock: int) {
    && |q| <= |history| && q == history[|history| - |q|..] && |q| <= limit
    && Sorted(history) && Spaced(history, window, limit) && (limit == 0 ==> history == [])
    && (forall i :: 0 <= i < |history| - |q| ==> history[i] < clock - window)
    && (forall i :: 0 <= i < |history| ==> history[i] <= clock)
  }

  lemma TimePasses(q: seq<int>, history: seq<int>, window: int, limit: nat, clock: int, now: int)
    requires Tracks(q, history, window, limit, clock) && clock <= now
    ensures Tracks(q, history, window, limit, now)
  {
  }

  lemma Popped(q: seq<int>, history: seq<int>, window: int, limit: nat, now: int)
    requires Tracks(q, history, window, limit, now) && q != [] && q[0] < now - window
    ensures Tracks(q[1..], history, window, limit, now)
  {
    var gone := |history| - |q|;
    assert history[gone] == q[0];
    assert history[gone..][1..] == history[gone + 1..];
  }

  /** After popping, the deque holds exactly the attempts within the window, so its length decides. */
  lemma PoppedDecides(q: seq<int>, history: seq<int>, window: int, limit: nat, now: int)
    requires Tracks(q, history, window, limit, now)
    requires q != [] ==> q[0] >= now - window
    ensures |q| < limit <==> Admits(history, now, window, limit)
  {
    var gone := |history| - |q|;
    assert q != [] ==> history[gone] == q[0];
    SinceSuffix(history, now - window, gone);
  }

  lemma Appended(q: seq<int>, history: seq<int>, window: int, limit: nat, now: int)
    requires Tracks(q, history, window, limit, now) && |q| < limit
    requires Admits(history, now, window, limit)
    ensures Tracks(q + [now], history + [now], window, limit, now)
  {
    AdmissionKeepsSpacing(history, now, window, limit);
    assert (history + [now])[|history| - |q|..] == q + [now];
  }

  lemma DequeSorted(q: seq<int>, history: seq<int>, window: int, limit: nat, clock: int)
    requires Tracks(q, history, window, limit, clock)
    ensures Sorted(q) && |q| <= limit
  {
  }

  /** The limiter: one deque of attempt times per client, and the full record it is judged against. */
  class Limiter {
    const window: int
    const limit: nat
    var attempts: map<string, seq<int>>
    ghost var admitted: map<string, seq<int>>
    ghost var clock: int

    ghost function Admitted(ip: string): seq<int>
      reads this
    {
      if ip in admitted then admitted[ip] else []
    }

    ghost predicate Valid()
      reads this
    {
      && attempts.Keys == admitted.Keys
      && forall ip :: ip in attempts ==> Tracks(attempts[ip], admitted[ip], window, limit, clock)
    }

    constructor (window: int, limit: nat, now: int)
      ensures Valid() && attempts == map[] && admitted == map[] && clock == now
      ensures this.window == window && this.limit == limit
    {
      this.window, this.limit := window, limit;
      attempts, admitted, clock := map[], map[], now;
    }

    /** One attempt: judged on the pruned deque, exactly as the full record would judge it. */
    method CheckRateLimit(ip: string, now: int) returns (ok: bool)
      requires Valid() && now >= clock
      modifies this
      ensures Valid() && clock == now
      ensures ok <==> Admits(old(Admitted(ip)), now, window, limit)
      ensures Admitted(ip) == if ok then old(Admitted(ip)) + [now] else old(Admitted(ip))
      ensures forall other :: other != ip ==> Admitted(other) == old(Admitted(other))
      ensures ip in attempts && Sorted(attempts[ip]) && |attempts[ip]| <= limit
    {
      hide Spaced, Sorted, Tracks;
      var cutoff := now - window;
      var q := if ip in attempts then attempts[ip] else [];
      ghost var history := Admitted(ip);
      EmptyTracks(window, limit, clock);
      forall client | client in attempts
        ensures Tracks(attempts[client], admitted[client], window, limit, now)
      {
        TimePasses(attempts[client], admitted[client], window, limit, clock, now);
      }
      TimePasses(q, history, window, limit, clock, now);
      while q != [] && q[0] < cutoff
        modifies {}
        invariant Tracks(q, history, window, limit, now)
      {
        Popped(q, history, window, limit, now);
        q := q[1..];
      }
      PoppedDecides(q, history, window, limit, now);
      ok := |q| < limit;
      if ok {
        Appended(q, history, window, limit, now);
        q, history := q + [now], history + [now];
      }
      DequeSorted(q, history, window, limit, now);
      attempts, admitted, clock := attempts[ip := q], admitted[ip := history], now;
    }

    /** In every reachable state, no closed interval as long as the window holds more than `limit`
        admissions of one client. */
    lemma AtMostLimitPerWindow(ip: string, a: int)
      requires Valid()
      ensures Within(Admitted(ip), a, a + window) <= limit
    {
      EmptyTracks(window, limit, clock);
      WindowHoldsAtMostLimit(Admitted(ip), window, limit, a);
    }
  }

  lemma EmptyTracks(window: int, limit: nat, clock: int)
    ensures Tracks([], [], window, limit, clock)
  {
  }
}
