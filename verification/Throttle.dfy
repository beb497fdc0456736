/** The escalating per-pair login cooldown (src/omni/auth/throttle.py), for one (email, IP) pair. */
module Throttle {
  import opened Clock
  import opened Powers

  const MAX_ATTEMPTS: int := 5
  const BASE_COOLDOWN: int := 60 * SECOND
  const MAX_COOLDOWN: int := 3600 * SECOND
  const LOOKBACK: int := DAY

  function Min(a: int, b: int): int {
    if a <= b then a else b
  }

  /** The cooldown after a streak; the doubling is clamped at six before it is computed. */
  function CooldownFor(failures: int): int {
    if failures < MAX_ATTEMPTS then 0
    else Min(BASE_COOLDOWN * TwoTo(Min(failures - MAX_ATTEMPTS, 6)), MAX_COOLDOWN)
  }

  lemma {:induction false} PowersGrow(m: nat, n: nat)
    requires m <= n
    ensures TwoTo(m) <= TwoTo(n)
  {
    if m < n {
      PowersGrow(m, n - 1);
    }
  }

  /** The clamp is invisible: from five failures on, the cooldown is the capped doubling. */
  lemma CooldownIsCappedDoubling(failures: int)
    requires failures >= MAX_ATTEMPTS
    ensures CooldownFor(failures) == Min(BASE_COOLDOWN * TwoTo(failures - MAX_ATTEMPTS), MAX_COOLDOWN)
  {
    if failures - MAX_ATTEMPTS > 6 {
      assert TwoTo(6) == 64;
      PowersGrow(6, failures - MAX_ATTEMPTS);
    }
  }

  lemma CooldownMonotone(f: int, g: int)
    requires f <= g
    ensures 0 <= CooldownFor(f) <= CooldownFor(g) <= MAX_COOLDOWN
  {
    if f >= MAX_ATTEMPTS {
      CooldownIsCappedDoubling(f);
      CooldownIsCappedDoubling(g);
      PowersGrow(f - MAX_ATTEMPTS, g - MAX_ATTEMPTS);
    }
  }

  // ----- the decision -----

  datatype Verdict = Admit | Refuse(remaining: int)

  /** The failures inside the lookback at time t, oldest row first. */
  function Recent(history: seq<int>, t: int): seq<int> {
    if history == [] then []
    else
      var n := |history| - 1;
      if history[n] > t - LOOKBACK then Recent(history[..n], t) + [history[n]] else Recent(history[..n], t)
  }

  lemma RecentAppend(history: seq<int>, x: int, t: int)
    ensures Recent(history + [x], t) == if x > t - LOOKBACK then Recent(history, t) + [x] else Recent(history, t)
  {
    assert (history + [x])[..|history|] == history;
  }

  function Latest(times: seq<int>): (m: int)
    requires times != []
    ensures m in times && forall x :: x in times ==> x <= m
  {
    var n := |times| - 1;
    if n == 0 then times[0]
    else
      var m := Latest(times[..n]);
      assert times == times[..n] + [times[n]];
      if times[n] > m then times[n] else m
  }

  /** The read-only admission decision at time t. */
  function Decide(history: seq<int>, t: int): Verdict {
    var recent := Recent(history, t);
    if recent == [] then Admit
    else
      var remaining := CooldownFor(|recent|) - (t - Latest(recent));
      if remaining > 0 then Refuse(remaining) else Admit
  }

  lemma {:induction false} RecentMembers(history: seq<int>, t: int)
    ensures forall x :: x in Recent(history, t) <==> x in history && x > t - DAY
  {
    if history != [] {
      var n := |history| - 1;
      RecentMembers(history[..n], t);
      assert history == history[..n] + [history[n]];
    }
  }

  lemma {:induction false} RecentShrinks(history: seq<int>, t: int, later: int)
    requires t <= later
    ensures |Recent(history, later)| <= |Recent(history, t)|
  {
    if history != [] {
      RecentShrinks(history[..|history| - 1], t, later);
    }
  }

  /** An attempt is admitted if and only if every failure of the last day is at least a cooldown old. */
  lemma AdmittedIff(history: seq<int>, t: int)
    ensures Decide(history, t).Admit? <==>
            forall x :: x in history && x > t - DAY ==> t - x >= CooldownFor(|Recent(history, t)|)
  {
    RecentMembers(history, t);
    var recent := Recent(history, t);
    if recent != [] {
      assert Latest(recent) in history && Latest(recent) > t - DAY;
    }
  }

  /** The wait a refusal names is enough, and no shorter one is while the same failures count. */
  lemma WaitIsExact(history: seq<int>, t: int, later: int)
    requires Decide(history, t).Refuse? && t <= later
    ensures var wait := Decide(history, t).remaining;
            && wait > 0
            && (later >= t + wait ==> Decide(history, later).Admit?)
            && (later < t + wait && Recent(history, later) == Recent(history, t) ==>
                  Decide(history, later) == Refuse(t + wait - later))
  {
    var recent, after := Recent(history, t), Recent(history, later);
    RecentMembers(history, t);
    RecentMembers(history, later);
    RecentShrinks(history, t, later);
    CooldownMonotone(|after|, |recent|);
    if after != [] {
      assert Latest(after) in recent;
    }
  }

  // ----- serial runs -----

  /** One login: when it is judged, and whether its password verifies. */
  datatype Attempt = Attempt(at: int, ok: bool)

  /** Only admitted attempts write: a success clears the pair, a failure adds a row. */
  function After(history: seq<int>, attempt: Attempt): seq<int> {
    if Decide(history, attempt.at).Refuse? then history
    else if attempt.ok then []
    else history + [attempt.at]
  }

  function Run(history: seq<int>, attempts: seq<Attempt>): seq<int> {
    if attempts == [] then history
    else
      var n := |attempts| - 1;
      After(Run(history, attempts[..n]), attempts[n])
  }

  /** The admitted failures of a run, in order. */
  function Failures(history: seq<int>, attempts: seq<Attempt>): seq<int> {
    if attempts == [] then []
    else
      var n, last := |attempts| - 1, attempts[|attempts| - 1];
      if !last.ok && Decide(Run(history, attempts[..n]), last.at).Admit?
      then Failures(history, attempts[..n]) + [last.at] else Failures(history, attempts[..n])
  }

  ghost predicate InTimeOrder(attempts: seq<Attempt>) {
    forall i, j :: 0 <= i < j < |attempts| ==> attempts[i].at <= attempts[j].at
  }

  /** No attempt of the run is an admitted success. */
  ghost predicate NoSuccess(history: seq<int>, attempts: seq<Attempt>) {
    forall n :: 0 <= n < |attempts| && attempts[n].ok ==> Decide(Run(history, attempts[..n]), attempts[n].at).Refuse?
  }

  lemma PrefixOfPrefix<T>(s: seq<T>, m: nat, n: nat)
    requires m <= n <= |s|
    ensures s[..n][..m] == s[..m]
  {
  }

  lemma NoSuccessPrefix(history: seq<int>, attempts: seq<Attempt>)
    requires attempts != [] && NoSuccess(history, attempts)
    ensures NoSuccess(history, attempts[..|attempts| - 1])
  {
    var n := |attempts| - 1;
    forall m | 0 <= m < n && attempts[..n][m].ok
      ensures Decide(Run(history, attempts[..n][..m]), attempts[..n][m].at).Refuse?
    {
      PrefixOfPrefix(attempts, m, n);
    }
  }

  /** Without a success the history is what it was, followed by the admitted failures. */
  lemma {:induction false} HistoryGrows(history: seq<int>, attempts: seq<Attempt>)
    requires NoSuccess(history, attempts)
    ensures Run(history, attempts) == history + Failures(history, attempts)
  {
    hide Decide;
    if attempts != [] {
      var n := |attempts| - 1;
      NoSuccessPrefix(history, attempts);
      HistoryGrows(history, attempts[..n]);
      assert attempts[..n] == attempts[..|attempts| - 1];
    }
  }

  /** Every time lies after the bound. */
  ghost predicate AllAfter(times: seq<int>, bound: int) {
    forall i :: 0 <= i < |times| ==> times[i] > bound
  }

  lemma {:induction false} FailureTimes(history: seq<int>, attempts: seq<Attempt>, lo: int, hi: int)
    requires forall i :: 0 <= i < |attempts| ==> lo <= attempts[i].at <= hi
    ensures forall i :: 0 <= i < |Failures(history, attempts)| ==> lo <= Failures(history, attempts)[i] <= hi
  {
    hide Decide;
    if attempts != [] {
      FailureTimes(history, attempts[..|attempts| - 1], lo, hi);
    }
  }

  // ----- the bound -----

  /** Each failure waited out the cooldown of the failures before it. */
  ghost predicate Gapped(failures: seq<int>) {
    forall i :: 1 <= i < |failures| ==> failures[i] - failures[i - 1] >= CooldownFor(i)
  }

  lemma {:induction false} RecentKeepsSuffix(history: seq<int>, suffix: seq<int>, t: int)
    requires AllAfter(suffix, t - LOOKBACK)
    ensures Recent(history + suffix, t) == Recent(history, t) + suffix
  {
    if suffix == [] {
      assert history + suffix == history;
    } else {
      var n, whole := |suffix| - 1, history + suffix;
      assert whole[..|whole| - 1] == history + suffix[..n];
      RecentKeepsSuffix(history, suffix[..n], t);
      assert suffix == suffix[..n] + [suffix[n]];
    }
  }

  /** An attempt admitted on a history that ends in `failures`, all recent, waited out their cooldown. */
  lemma AdmittedWaited(history: seq<int>, failures: seq<int>, t: int)
    requires failures != [] && AllAfter(failures, t - LOOKBACK)
    requires Decide(history + failures, t).Admit?
    ensures t - failures[|failures| - 1] >= CooldownFor(|failures|)
  {
    RecentKeepsSuffix(history, failures, t);
    var recent := Recent(history + failures, t);
    assert failures[|failures| - 1] in recent;
    CooldownMonotone(|failures|, |recent|);
  }

  lemma {:induction false} FailuresGapped(history: seq<int>, attempts: seq<Attempt>)
    requires InTimeOrder(attempts) && NoSuccess(history, attempts)
    requires attempts != [] ==> attempts[|attempts| - 1].at - attempts[0].at < LOOKBACK
    ensures Gapped(Failures(history, attempts))
  {
    hide Decide, CooldownFor;
    if attempts != [] {
      var n, last := |attempts| - 1, attempts[|attempts| - 1];
      var before := Failures(history, attempts[..n]);
      NoSuccessPrefix(history, attempts);
      FailuresGapped(history, attempts[..n]);
      HistoryGrows(history, attempts[..n]);
      FailureTimes(history, attempts[..n], attempts[0].at, last.at);
      if !last.ok && Decide(Run(history, attempts[..n]), last.at).Admit? && before != [] {
        AdmittedWaited(history, before, last.at);
      }
    }
  }

  /** The least span of n + 1 gapped failures. */
  function LeastSpan(n: nat): int {
    if n == 0 then 0 else LeastSpan(n - 1) + CooldownFor(n)
  }

  lemma {:induction false} SpanAtLeast(failures: seq<int>, n: nat)
    requires Gapped(failures) && n < |failures|
    ensures failures[n] - failures[0] >= LeastSpan(n)
  {
    if n > 0 {
      SpanAtLeast(failures, n - 1);
    }
  }

  lemma FirstCooldowns()
    ensures CooldownFor(5) == 60 * SECOND && CooldownFor(6) == 120 * SECOND && CooldownFor(7) == 240 * SECOND
    ensures CooldownFor(8) == 480 * SECOND && CooldownFor(9) == 960 * SECOND && CooldownFor(10) == 1920 * SECOND
  {
    assert TwoTo(0) == 1 && TwoTo(1) == 2 && TwoTo(2) == 4;
    assert TwoTo(3) == 8 && TwoTo(4) == 16 && TwoTo(5) == 32;
  }

  lemma FirstSpans()
    ensures LeastSpan(4) == 0 && LeastSpan(10) == 3780 * SECOND
  {
    FirstCooldowns();
    assert LeastSpan(2) == 0;
    assert LeastSpan(4) == 0;
    assert LeastSpan(6) == 180 * SECOND;
    assert LeastSpan(8) == 900 * SECOND;
  }

  /** From eleven failures on every cooldown is the cap. */
  lemma CappedFromEleven(n: nat)
    requires n >= 11
    ensures CooldownFor(n) == MAX_COOLDOWN
  {
    assert TwoTo(6) == 64;
  }

  lemma {:induction false} SpanFormula(n: nat)
    requires n >= 10
    ensures LeastSpan(n) == 3780 * SECOND + (n - 10) * MAX_COOLDOWN
  {
    hide CooldownFor;
    if n == 10 {
      FirstSpans();
    } else {
      SpanFormula(n - 1);
      CappedFromEleven(n);
    }
  }

  /** With no success in between, any run of logins of one pair has at most 33 admitted failures in
      any span shorter than the lookback, whatever the history before it. */
  lemma AtMost33Failures(history: seq<int>, attempts: seq<Attempt>)
    requires InTimeOrder(attempts) && NoSuccess(history, attempts)
    requires attempts != [] ==> attempts[|attempts| - 1].at - attempts[0].at < LOOKBACK
    ensures |Failures(history, attempts)| <= 33
  {
    hide Decide, CooldownFor, NoSuccess, LeastSpan;
    FailuresGapped(history, attempts);
    var failures := Failures(history, attempts);
    if |failures| > 33 {
      FailureTimes(history, attempts, attempts[0].at, attempts[|attempts| - 1].at);
      SpanAtLeast(failures, 33);
      SpanFormula(33);
    }
  }

  /** Failing again at the first admitted instant, every time. */
  function Relentless(n: nat): (attempts: seq<Attempt>)
    ensures |attempts| == n
  {
    seq(n, i requires 0 <= i < n => Attempt(LeastSpan(i), false))
  }

  lemma {:induction false} LeastSpanMonotone(m: nat, n: nat)
    requires m <= n
    ensures LeastSpan(m) <= LeastSpan(n)
  {
    if m < n {
      LeastSpanMonotone(m, n - 1);
      CooldownMonotone(n, n);
    }
  }

  function Schedule(n: nat): (times: seq<int>)
    ensures |times| == n
  {
    seq(n, i requires 0 <= i < n => LeastSpan(i))
  }

  lemma ScheduleAdmits(n: nat)
    requires 1 <= n <= 32
    ensures Decide(Schedule(n), LeastSpan(n)).Admit?
  {
    hide CooldownFor;
    var t := LeastSpan(n);
    SpanFormula(32);
    LeastSpanMonotone(n, 32);
    forall i: nat | i < n ensures t - LOOKBACK < Schedule(n)[i] <= LeastSpan(n - 1) {
      LeastSpanMonotone(0, i);
      LeastSpanMonotone(i, n - 1);
    }
    RecentKeepsSuffix([], Schedule(n), t);
    assert [] + Schedule(n) == Schedule(n);
  }

  lemma {:induction false} RelentlessAdmitted(n: nat)
    requires n <= 33
    ensures Run([], Relentless(n)) == Failures([], Relentless(n)) == Schedule(n)
  {
    hide CooldownFor, LeastSpan, Decide;
    if n > 0 {
      RelentlessAdmitted(n - 1);
      assert Relentless(n)[..n - 1] == Relentless(n - 1);
      assert Schedule(n) == Schedule(n - 1) + [LeastSpan(n - 1)];
      if n > 1 {
        ScheduleAdmits(n - 1);
      } else {
        EmptyAdmits(LeastSpan(0));
      }
    }
  }

  lemma EmptyAdmits(t: int)
    ensures Decide([], t).Admit?
  {
  }

  /** The bound is attained: 33 admitted failures fit in 82 980 seconds. */
  lemma BoundAttained()
    ensures InTimeOrder(Relentless(33)) && NoSuccess([], Relentless(33))
    ensures |Failures([], Relentless(33))| == 33
    ensures Relentless(33)[32].at - Relentless(33)[0].at == 82_980 * SECOND < LOOKBACK
  {
    hide CooldownFor, Decide, Run, Failures, InTimeOrder, LeastSpan;
    RelentlessAdmitted(33);
    RelentlessInOrder(33);
    SpanFormula(32);
    NoSpan();
  }

  lemma NoSpan()
    ensures LeastSpan(0) == 0
  {
  }

  lemma RelentlessInOrder(n: nat)
    ensures InTimeOrder(Relentless(n))
  {
    hide CooldownFor, LeastSpan;
    forall i: nat, j: nat | i < j < n ensures Relentless(n)[i].at <= Relentless(n)[j].at {
      LeastSpanMonotone(i, j);
    }
  }

  // ----- pruning -----

  /** A maintenance pass at time t removes rows older than the lookback: any of them. */
  function Pruned(history: seq<int>, victims: set<int>, t: int): seq<int> {
    if history == [] then []
    else
      var n := |history| - 1;
      if n in victims && history[n] < t - LOOKBACK then Pruned(history[..n], victims, t)
      else Pruned(history[..n], victims, t) + [history[n]]
  }

  /** What pruning removes no later decision can see. */
  lemma {:induction false} PrunedUnseen(history: seq<int>, victims: set<int>, t: int, later: int)
    requires t <= later
    ensures Recent(Pruned(history, victims, t), later) == Recent(history, later)
  {
    if history != [] {
      var n := |history| - 1;
      PrunedUnseen(history[..n], victims, t, later);
      RecentAppend(Pruned(history[..n], victims, t), history[n], later);
    }
  }

  /** A pass that takes all it may leaves exactly the rows of the last day. */
  lemma {:induction false} PrunedClean(history: seq<int>, victims: set<int>, t: int)
    requires forall n :: 0 <= n < |history| ==> n in victims
    ensures forall x :: x in Pruned(history, victims, t) <==> x in history && x >= t - DAY
  {
    if history != [] {
      var n := |history| - 1;
      PrunedClean(history[..n], victims, t);
      assert history == history[..n] + [history[n]];
    }
  }

  /** Histories that look alike now look alike later, and stay alike when the same row is added. */
  lemma {:induction false} AlikeLater(a: seq<int>, b: seq<int>, t: int, later: int)
    requires Recent(a, t) == Recent(b, t) && t <= later
    ensures Recent(a, later) == Recent(b, later)
  {
    RecentOfRecent(a, t, later);
    RecentOfRecent(b, t, later);
  }

  lemma {:induction false} RecentOfRecent(a: seq<int>, t: int, later: int)
    requires t <= later
    ensures Recent(Recent(a, t), later) == Recent(a, later)
  {
    if a != [] {
      var n := |a| - 1;
      RecentOfRecent(a[..n], t, later);
      RecentAppend(Recent(a[..n], t), a[n], later);
    }
  }

  lemma AlikeAppend(a: seq<int>, b: seq<int>, x: int, t: int)
    requires Recent(a, t) == Recent(b, t)
    ensures Recent(a + [x], t) == Recent(b + [x], t)
  {
    RecentAppend(a, x, t);
    RecentAppend(b, x, t);
  }
}
