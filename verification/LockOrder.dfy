/** Row locking by concurrent budget reservations (src/omni/auth/admission.py): a transaction locks the
    rows of its keys one by one in sorted order and holds them to its end. */
module LockOrder {
  import KeyOrder
  import Budgets

  /** One transaction: the rows it will lock, in order, and how many of them it holds. */
  datatype Txn = Txn(keys: seq<string>, held: nat, ended: bool) {
    predicate Active() {
      !ended && held <= |keys|
    }

    predicate Wanting() {
      Active() && held < |keys|
    }

    predicate Holds(key: string) {
      Active() && key in keys[..held]
    }
  }

  type State = seq<Txn>

  /** Arrive: a request starts. Acquire: transaction i gets its next row. End: it commits, or it is
      refused, cancelled or killed; either way its locks are released. */
  datatype Step = Arrive(keys: seq<string>) | Acquire(i: nat) | End(i: nat)

  /** Transaction i cannot move: another one holds the row it wants. */
  ghost predicate WaitsFor(s: State, i: nat, j: nat) {
    i < |s| && j < |s| && i != j && s[i].Wanting() && s[j].Holds(s[i].keys[s[i].held])
  }

  ghost predicate Blocked(s: State, i: nat) {
    exists j :: WaitsFor(s, i, j)
  }

  ghost predicate Enabled(s: State, step: Step) {
    match step
    case Arrive(_) => true
    case Acquire(i) => i < |s| && s[i].Wanting() && !Blocked(s, i)
    case End(i) => i < |s| && s[i].Active()
  }

  function Next(s: State, step: Step): State {
    match step
    case Arrive(keys) => s + [Txn(keys, 0, false)]
    case Acquire(i) => if i < |s| then s[i := s[i].(held := s[i].held + 1)] else s
    case End(i) => if i < |s| then s[i := s[i].(ended := true)] else s
  }

  ghost predicate Ascending(keys: seq<string>) {
    forall i, j :: 0 <= i < j < |keys| ==> keys[i] == keys[j] || KeyOrder.Less(keys[i], keys[j])
  }

  /** A run in which each request takes its rows in ascending key order. */
  ghost predicate SortedRun(s: State, steps: seq<Step>)
    decreases |steps|
  {
    steps == []
    || (Enabled(s, steps[0]) && (steps[0].Arrive? ==> Ascending(steps[0].keys)) && SortedRun(Next(s, steps[0]), steps[1..]))
  }

  function Final(s: State, steps: seq<Step>): State
    decreases |steps|
  {
    if steps == [] then s else Final(Next(s, steps[0]), steps[1..])
  }

  /** Every row has at most one holder, and every transaction asks in ascending order. */
  ghost predicate Inv(s: State) {
    && (forall i, j, key :: 0 <= i < |s| && 0 <= j < |s| && s[i].Holds(key) && s[j].Holds(key) ==> i == j)
    && (forall i :: 0 <= i < |s| ==> Ascending(s[i].keys) && (!s[i].ended ==> s[i].held <= |s[i].keys|))
  }

  lemma StepKeepsInv(s: State, step: Step)
    requires Inv(s) && Enabled(s, step) && (step.Arrive? ==> Ascending(step.keys))
    ensures Inv(Next(s, step))
  {
    var s' := Next(s, step);
    forall i, j, key | 0 <= i < |s'| && 0 <= j < |s'| && s'[i].Holds(key) && s'[j].Holds(key)
      ensures i == j
    {
      HoldsBefore(s, step, i, key);
      HoldsBefore(s, step, j, key);
    }
  }

  /** A lock held after a step was held before it, or nobody held it. */
  lemma HoldsBefore(s: State, step: Step, i: nat, key: string)
    requires Enabled(s, step) && i < |Next(s, step)| && Next(s, step)[i].Holds(key)
    ensures i < |s|
    ensures s[i].Holds(key) || (step == Acquire(i) && forall j :: 0 <= j < |s| && j != i ==> !s[j].Holds(key))
  {
    if step == Acquire(i) {
      var t := s[i];
      assert t.keys[..t.held + 1] == t.keys[..t.held] + [t.keys[t.held]];
      assert forall j: nat :: !WaitsFor(s, i, j);
      if !t.Holds(key) {
        forall j: nat | j < |s| && j != i ensures !s[j].Holds(key) {
          assert !WaitsFor(s, i, j);
        }
      }
    }
  }

  /** A transaction that gets a row holds it, and keeps it through every step until its own end. */
  lemma HeldToTheEnd(s: State, step: Step, i: nat, key: string)
    requires Enabled(s, step) && i < |s| && step != End(i)
    requires s[i].Holds(key) || (step == Acquire(i) && key == s[i].keys[s[i].held])
    ensures Next(s, step)[i].Holds(key)
  {
    var after := Next(s, step)[i];
    if step == Acquire(i) {
      assert after.keys[..after.held] == s[i].keys[..s[i].held] + [s[i].keys[s[i].held]];
    }
  }

  /** Requests arrive at any moment, and any that has not ended can end. */
  lemma AnyMoment(s: State, keys: seq<string>, i: nat)
    ensures Enabled(s, Arrive(keys))
    ensures i < |s| && !s[i].ended && s[i].held <= |s[i].keys| ==> Enabled(s, End(i))
  {
  }

  lemma {:induction false} RunKeepsInv(s: State, steps: seq<Step>)
    requires Inv(s) && SortedRun(s, steps)
    ensures Inv(Final(s, steps))
    decreases |steps|
  {
    if steps != [] {
      StepKeepsInv(s, steps[0]);
      RunKeepsInv(Next(s, steps[0]), steps[1..]);
    }
  }

  function Wanted(s: State, i: nat): string
    requires i < |s| && s[i].Wanting()
  {
    s[i].keys[s[i].held]
  }

  /** Along a chain of waits the wanted keys strictly ascend. */
  lemma WaitsAscend(s: State, i: nat, j: nat)
    requires Inv(s) && WaitsFor(s, i, j) && Blocked(s, j)
    ensures KeyOrder.Less(Wanted(s, i), Wanted(s, j))
  {
    var held := s[j].keys[..s[j].held];
    var k :| 0 <= k < |held| && held[k] == Wanted(s, i);
    assert s[j].keys[k] == Wanted(s, i);
    var m: nat :| WaitsFor(s, j, m);
    assert s[m].Holds(Wanted(s, j)) && !s[j].Holds(Wanted(s, j));
  }

  ghost predicate WaitsChain(s: State, chain: seq<nat>) {
    forall k :: 0 <= k < |chain| - 1 ==> WaitsFor(s, chain[k], chain[k + 1])
  }

  lemma {:induction false} ChainAscends(s: State, chain: seq<nat>, n: nat)
    requires Inv(s) && WaitsChain(s, chain) && 1 <= n < |chain| && Blocked(s, chain[n])
    ensures Blocked(s, chain[0]) && KeyOrder.Less(Wanted(s, chain[0]), Wanted(s, chain[n]))
  {
    assert WaitsFor(s, chain[n - 1], chain[n]) && WaitsFor(s, chain[0], chain[1]);
    WaitsAscend(s, chain[n - 1], chain[n]);
    if n > 1 {
      ChainAscends(s, chain, n - 1);
      KeyOrder.Transitive(Wanted(s, chain[0]), Wanted(s, chain[n - 1]), Wanted(s, chain[n]));
    }
  }

  /** In no reachable state do transactions wait for each other in a circle. */
  lemma NoWaitCycle(steps: seq<Step>, chain: seq<nat>)
    requires SortedRun([], steps) && WaitsChain(Final([], steps), chain) && |chain| >= 2
    ensures chain[0] != chain[|chain| - 1]
  {
    var s := Final([], steps);
    RunKeepsInv([], steps);
    assert WaitsFor(s, chain[0], chain[1]);
    if chain[0] == chain[|chain| - 1] {
      ChainAscends(s, chain, |chain| - 1);
      KeyOrder.Irreflexive(Wanted(s, chain[0]));
    }
  }

  /** The blocked transaction among the first n that wants the greatest key, if any is blocked. */
  lemma GreatestBlocked(s: State, n: nat) returns (best: int)
    requires n <= |s|
    ensures best < n && (best >= 0 ==> Blocked(s, best))
    ensures forall i: nat :: i < n && Blocked(s, i) ==> best >= 0 && !KeyOrder.Less(Wanted(s, best), Wanted(s, i))
  {
    best := -1;
    for k := 0 to n
      invariant best < k && (best >= 0 ==> Blocked(s, best))
      invariant forall i: nat :: i < k && Blocked(s, i) ==> best >= 0 && !KeyOrder.Less(Wanted(s, best), Wanted(s, i))
    {
      if Blocked(s, k) {
        KeyOrder.Irreflexive(Wanted(s, k));
        if best < 0 {
          best := k;
        } else if KeyOrder.Less(Wanted(s, best), Wanted(s, k)) {
          forall i: nat | i < k && Blocked(s, i) ensures !KeyOrder.Less(Wanted(s, k), Wanted(s, i)) {
            if KeyOrder.Less(Wanted(s, k), Wanted(s, i)) {
              KeyOrder.Transitive(Wanted(s, best), Wanted(s, k), Wanted(s, i));
            }
          }
          best := k;
        }
      }
    }
  }

  /** While any transaction is active, one that is not blocked can take its next step. */
  lemma SomeoneCanStep(steps: seq<Step>, i: nat) returns (j: nat)
    requires SortedRun([], steps) && i < |Final([], steps)| && Final([], steps)[i].Active()
    ensures var s := Final([], steps);
            j < |s| && s[j].Active() && !Blocked(s, j) && (s[j].Wanting() ==> Enabled(s, Acquire(j)))
  {
    var s := Final([], steps);
    RunKeepsInv([], steps);
    if !Blocked(s, i) {
      return i;
    }
    var best := GreatestBlocked(s, |s|);
    j :| WaitsFor(s, best, j);
    if Blocked(s, j) {
      WaitsAscend(s, best, j);
    }
  }

  /** Steps left to the active transactions. */
  ghost function Work(s: State): nat {
    if s == [] then 0
    else
      var t := s[|s| - 1];
      Work(s[..|s| - 1]) + if t.Active() then |t.keys| - t.held + 1 else 0
  }

  /** Every step of a transaction uses up work, so once arrivals stop all of them come to an end. */
  lemma {:induction false} StepsUseWork(s: State, step: Step)
    requires Enabled(s, step) && !step.Arrive?
    ensures Work(Next(s, step)) < Work(s)
  {
    var n, i := |s| - 1, step.i;
    var s' := Next(s, step);
    if i == n {
      assert s'[..n] == s[..n];
    } else {
      assert s'[..n] == Next(s[..n], step);
      WorkShrinks(s[..n], s'[..n], i);
    }
  }

  lemma {:induction false} WorkShrinks(s: State, s': State, i: nat)
    requires i < |s| == |s'| && s' == s[i := s'[i]] && s[i].Active()
    requires !s'[i].Active() || (s'[i].keys == s[i].keys && s'[i].held > s[i].held)
    ensures Work(s') < Work(s)
  {
    var n := |s| - 1;
    if i == n {
      assert s'[..n] == s[..n];
    } else {
      assert s'[..n] == s[..n][i := s'[i]];
      WorkShrinks(s[..n], s'[..n], i);
    }
  }

  /** The rows a budget request locks, in the order it locks them. */
  function LockSequence(items: seq<Budgets.Item>): seq<string> {
    var sorted := Budgets.Sorted(items);
    seq(|sorted|, i requires 0 <= i < |sorted| => sorted[i].key)
  }

  /** Budget requests lock in ascending order, so runs of them are sorted runs. */
  lemma BudgetsLockAscending(items: seq<Budgets.Item>)
    ensures Ascending(LockSequence(items))
  {
    Budgets.SortedAscends(items);
  }

  /** Without the sort, two requests that name the same two keys in opposite orders can block each
      other for good. */
  lemma UnsortedCanDeadlock()
    ensures var s := Final([], [Arrive(["a", "b"]), Arrive(["b", "a"]), Acquire(0), Acquire(1)]);
            WaitsFor(s, 0, 1) && WaitsFor(s, 1, 0)
  {
    var s1: State := [Txn(["a", "b"], 0, false)];
    var s2 := s1 + [Txn(["b", "a"], 0, false)];
    var s3 := s2[0 := Txn(["a", "b"], 1, false)];
    var s4 := s3[1 := Txn(["b", "a"], 1, false)];
    assert Final(s3, [Acquire(1)]) == Final(s4, []);
    assert Final(s2, [Acquire(0), Acquire(1)]) == Final(s3, [Acquire(1)]);
    assert Final(s1, [Arrive(["b", "a"]), Acquire(0), Acquire(1)]) == Final(s2, [Acquire(0), Acquire(1)]);
    assert Next([], Arrive(["a", "b"])) == s1;
    assert ["a", "b"][..1] == ["a"] && ["b", "a"][..1] == ["b"];
  }
}
