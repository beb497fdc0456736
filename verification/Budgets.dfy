/** Fixed-window admission budgets (src/omni/auth/admission.py, src/omni/auth/throttle.py).
    Times are integers (microseconds) on one monotone clock, one instant per transaction. */
module Budgets {
  import opened Clock
  import opened Options
  import KeyOrder

  datatype Row = Row(used: int, expiresAt: int)

  type Table = map<string, Row>

  datatype Item = Item(key: string, maximum: int, window: int)

  datatype Outcome = Committed | Refused(key: string, retryAfter: int) | Invalid

  // ----- one request -----

  /** The single-key upsert: None when the budget is exhausted. */
  function Reserve(table: Table, item: Item, t: int): Option<Table> {
    if item.key !in table then Some(table[item.key := Row(1, t + item.window)])
    else
      var row := table[item.key];
      if row.expiresAt <= t then Some(table[item.key := Row(1, t + item.window)])
      else if row.used < item.maximum then Some(table[item.key := Row(row.used + 1, row.expiresAt)])
      else None
  }

  predicate WellFormed(item: Item) {
    item.maximum >= 1 && item.window > 0
  }

  function RetryAfter(table: Table, key: string, t: int): int {
    if key in table && table[key].expiresAt - t > SECOND then table[key].expiresAt - t else SECOND
  }

  /** The reservations of one transaction, in order: the outcome, and the table if it commits. */
  function ReserveAll(table: Table, items: seq<Item>, t: int): (Outcome, Table)
    decreases |items|
  {
    if items == [] then (Committed, table)
    else if !WellFormed(items[0]) then (Invalid, table)
    else
      match Reserve(table, items[0], t)
      case None => (Refused(items[0].key, RetryAfter(table, items[0].key, t)), table)
      case Some(reserved) => ReserveAll(reserved, items[1..], t)
  }

  /** What a request does to the table: everything, or nothing. */
  function Request(table: Table, items: seq<Item>, t: int): (Outcome, Table) {
    var (outcome, reserved) := ReserveAll(table, Sorted(items), t);
    (outcome, if outcome.Committed? then reserved else table)
  }

  predicate AtMost(a: Item, b: Item) {
    KeyOrder.Less(a.key, b.key)
    || (a.key == b.key && (a.maximum < b.maximum || (a.maximum == b.maximum && a.window <= b.window)))
  }

  function Insert(item: Item, items: seq<Item>): (r: seq<Item>)
    ensures multiset(r) == multiset(items) + multiset{item}
  {
    if items == [] then [item]
    else if AtMost(item, items[0]) then [item] + items
    else
      assert items == [items[0]] + items[1..];
      [items[0]] + Insert(item, items[1..])
  }

  function Sorted(items: seq<Item>): (r: seq<Item>)
    ensures multiset(r) == multiset(items)
  {
    if items == [] then []
    else
      assert items == [items[0]] + items[1..];
      Insert(items[0], Sorted(items[1..]))
  }

  /** By key, then by maximum, then by window. */
  ghost predicate NotAfter(a: Item, b: Item) {
    || KeyOrder.Less(a.key, b.key)
    || (a.key == b.key && a.maximum < b.maximum)
    || (a.key == b.key && a.maximum == b.maximum && a.window <= b.window)
  }

  ghost predicate Ascends(items: seq<Item>) {
    forall i, j :: 0 <= i < j < |items| ==> NotAfter(items[i], items[j])
  }

  ghost predicate KeysAscend(items: seq<Item>) {
    forall i, j :: 0 <= i < j < |items| ==> items[i].key == items[j].key || KeyOrder.Less(items[i].key, items[j].key)
  }

  lemma AtMostIff(a: Item, b: Item)
    ensures AtMost(a, b) <==> NotAfter(a, b)
    ensures NotAfter(a, b) || NotAfter(b, a)
  {
    hide KeyOrder.Less;
    KeyOrder.Trichotomy(a.key, b.key);
  }

  lemma NotAfterTransitive(a: Item, b: Item, c: Item)
    requires NotAfter(a, b) && NotAfter(b, c)
    ensures NotAfter(a, c)
  {
    hide KeyOrder.Less;
    if KeyOrder.Less(a.key, b.key) && KeyOrder.Less(b.key, c.key) {
      KeyOrder.Transitive(a.key, b.key, c.key);
    }
  }

  lemma {:induction false} InsertAscends(item: Item, items: seq<Item>)
    requires Ascends(items)
    ensures Ascends(Insert(item, items))
  {
    hide NotAfter, AtMost;
    if items != [] {
      AtMostIff(item, items[0]);
      if AtMost(item, items[0]) {
        forall j | 0 <= j < |items| ensures NotAfter(item, items[j]) {
          if j > 0 {
            NotAfterTransitive(item, items[0], items[j]);
          }
        }
      } else {
        InsertAscends(item, items[1..]);
        var rest := Insert(item, items[1..]);
        forall x | x in rest ensures NotAfter(items[0], x) {
          assert x in multiset(rest);
          assert x == item || x in items[1..];
        }
      }
    }
  }

  lemma {:induction false} SortedOrder(items: seq<Item>)
    ensures Ascends(Sorted(items))
  {
    if items != [] {
      SortedOrder(items[1..]);
      InsertAscends(items[0], Sorted(items[1..]));
    }
  }

  /** Reservations are taken in ascending order of key, then maximum, then window, whatever order they
      were named in. */
  lemma SortedAscends(items: seq<Item>)
    ensures Ascends(Sorted(items)) && KeysAscend(Sorted(items))
  {
    hide KeyOrder.Less, Sorted;
    SortedOrder(items);
    var sorted := Sorted(items);
    forall i, j | 0 <= i < j < |sorted|
      ensures sorted[i].key == sorted[j].key || KeyOrder.Less(sorted[i].key, sorted[j].key)
    {
      assert NotAfter(sorted[i], sorted[j]);
    }
  }

  /** The budget table; a request is one transaction on it. */
  class Store {
    var table: Table

    constructor ()
      ensures table == map[]
    {
      table := map[];
    }

    method ReserveBudgets(budgets: seq<Item>, t: int) returns (outcome: Outcome)
      modifies this
      ensures (outcome, table) == Request(old(table), budgets, t)
      ensures !outcome.Committed? ==> table == old(table)
    {
      var items, before := Sorted(budgets), table;
      for i := 0 to |items|
        invariant ReserveAll(table, items[i..], t) == ReserveAll(before, items, t)
      {
        assert items[i..][0] == items[i] && items[i..][1..] == items[i + 1..];
        if !WellFormed(items[i]) {
          table := before;
          return Invalid;
        }
        var reserved := Reserve(table, items[i], t);
        if reserved.None? {
          outcome := Refused(items[i].key, RetryAfter(table, items[i].key, t));
          table := before;
          return;
        }
        table := reserved.value;
      }
      return Committed;
    }
  }

  // ----- what one key sees -----

  /** A key's row while its window is open. */
  function Live(table: Table, key: string, t: int): Option<Row> {
    if key in table && table[key].expiresAt > t then Some(table[key]) else None
  }

  /** The next row of a key whose budget grants one more unit. */
  function Granted(live: Option<Row>, item: Item, t: int): Option<Row> {
    match live
    case None => Some(Row(1, t + item.window))
    case Some(row) => if row.used < item.maximum then Some(Row(row.used + 1, row.expiresAt)) else None
  }

  /** `items` names `item.key` at most once, and only with this maximum and window. */
  ghost predicate OnlyAs(items: seq<Item>, item: Item) {
    multiset(items)[item] <= 1 && forall x :: x in items && x.key == item.key ==> x == item
  }

  /** A transaction that goes through takes exactly one unit of every key it names, and leaves every
      other key alone. */
  lemma {:induction false} ReservesEachOnce(table: Table, items: seq<Item>, item: Item, t: int)
    requires OnlyAs(items, item) && WellFormed(item)
    requires ReserveAll(table, items, t).0.Committed?
    ensures var after := ReserveAll(table, items, t).1;
            if item in items
            then Granted(Live(table, item.key, t), item, t).Some?
                 && Live(after, item.key, t) == Granted(Live(table, item.key, t), item, t)
            else (item.key in after <==> item.key in table) && (item.key in table ==> after[item.key] == table[item.key])
    decreases |items|
  {
    if items != [] {
      assert items == [items[0]] + items[1..];
      assert multiset(items) == multiset{items[0]} + multiset(items[1..]);
      var reserved := Reserve(table, items[0], t).value;
      ReservesEachOnce(reserved, items[1..], item, t);
    }
  }

  lemma {:induction false} SortedOnlyAs(items: seq<Item>, item: Item)
    requires OnlyAs(items, item)
    ensures OnlyAs(Sorted(items), item) && (item in Sorted(items) <==> item in items)
  {
    var sorted := Sorted(items);
    forall x | x in sorted && x.key == item.key ensures x == item {
      assert x in multiset(sorted);
    }
    assert item in sorted <==> item in multiset(sorted);
    assert item in items <==> item in multiset(items);
  }

  /** The effect of a whole request on one key. */
  lemma RequestOnKey(table: Table, items: seq<Item>, item: Item, t: int)
    requires OnlyAs(items, item) && WellFormed(item)
    ensures var (outcome, after) := Request(table, items, t);
            if outcome.Committed? && item in items
            then Granted(Live(table, item.key, t), item, t).Some?
                 && Live(after, item.key, t) == Granted(Live(table, item.key, t), item, t)
            else (item.key in after <==> item.key in table) && (item.key in table ==> after[item.key] == table[item.key])
  {
    SortedOnlyAs(items, item);
    if Request(table, items, t).0.Committed? {
      ReservesEachOnce(table, Sorted(items), item, t);
    }
  }

  /** The budget alone would grant this item. */
  ghost predicate Grants(table: Table, item: Item, t: int) {
    WellFormed(item) && Granted(Live(table, item.key, t), item, t).Some?
  }

  ghost predicate DistinctKeys(items: seq<Item>) {
    forall x :: x in items ==> OnlyAs(items, x)
  }

  lemma {:induction false} ReserveAllIff(table: Table, items: seq<Item>, t: int)
    requires DistinctKeys(items)
    ensures ReserveAll(table, items, t).0.Committed? <==> forall x :: x in items ==> Grants(table, x, t)
    decreases |items|
  {
    if items != [] {
      var head, tail := items[0], items[1..];
      DistinctTail(items);
      if Grants(table, head, t) {
        var reserved := Reserve(table, head, t).value;
        ReserveAllIff(reserved, tail, t);
        assert ReserveAll(table, items, t) == ReserveAll(reserved, tail, t);
        forall x | x in tail ensures Grants(reserved, x, t) <==> Grants(table, x, t) {
          assert Live(reserved, x.key, t) == Live(table, x.key, t);
        }
        assert forall x :: x in items <==> x == head || x in tail;
      }
    }
  }

  /** All or nothing: a request on distinct keys commits exactly when every budget it names would
      grant its unit; otherwise the table is untouched. */
  lemma RequestCommitsIff(table: Table, items: seq<Item>, t: int)
    requires DistinctKeys(items)
    ensures Request(table, items, t).0.Committed? <==> forall x :: x in items ==> Grants(table, x, t)
    ensures !Request(table, items, t).0.Committed? ==> Request(table, items, t).1 == table
  {
    var sorted := Sorted(items);
    forall x | x in sorted ensures x in items && OnlyAs(sorted, x) {
      assert x in multiset(sorted);
      SortedOnlyAs(items, x);
    }
    forall x | x in items ensures x in sorted {
      SortedOnlyAs(items, x);
    }
    ReserveAllIff(table, sorted, t);
  }

  /** What a refusal on distinct keys says: the key it names is exhausted; the wait it names is at least a
      second and enough for that key's window to be over; and no shorter wait of more than a second is. */
  lemma {:induction false} ReserveAllRefusal(table: Table, items: seq<Item>, t: int, later: int)
    requires DistinctKeys(items) && ReserveAll(table, items, t).0.Refused? && t <= later
    ensures var Refused(key, wait) := ReserveAll(table, items, t).0;
            && wait >= SECOND
            && exists item :: item in items && item.key == key && WellFormed(item) && !Grants(table, item, t)
                 && (later >= t + wait ==> Grants(table, item, later))
                 && (wait > SECOND && later < t + wait ==> !Grants(table, item, later))
    decreases |items|
  {
    var head, tail := items[0], items[1..];
    DistinctTail(items);
    if Grants(table, head, t) {
      var reserved := Reserve(table, head, t).value;
      assert ReserveAll(table, items, t) == ReserveAll(reserved, tail, t);
      hide ReserveAll, DistinctKeys;
      ReserveAllRefusal(reserved, tail, t, later);
      var Refused(key, wait) := ReserveAll(table, items, t).0;
      var item :| item in tail && item.key == key && WellFormed(item) && !Grants(reserved, item, t)
                  && (later >= t + wait ==> Grants(reserved, item, later))
                  && (wait > SECOND && later < t + wait ==> !Grants(reserved, item, later));
      assert item in items && key != head.key;
      assert Live(reserved, key, t) == Live(table, key, t) && Live(reserved, key, later) == Live(table, key, later);
    } else {
      assert head.key in table && table[head.key].expiresAt > t;
    }
  }

  lemma DistinctTail(items: seq<Item>)
    requires DistinctKeys(items) && items != []
    ensures DistinctKeys(items[1..]) && forall x :: x in items[1..] ==> x.key != items[0].key && x in items
  {
    var head, tail := items[0], items[1..];
    assert items == [head] + tail && multiset(items) == multiset{head} + multiset(tail);
    assert head in items;
    forall x | x in tail ensures OnlyAs(tail, x) && x.key != head.key {
      assert OnlyAs(items, x) && OnlyAs(items, head);
      assert x in multiset(tail);
    }
  }

  /** The same for a whole request, and nothing has been taken. */
  lemma RefusalWait(table: Table, items: seq<Item>, t: int, later: int)
    requires DistinctKeys(items) && Request(table, items, t).0.Refused? && t <= later
    ensures var (Refused(key, wait), after) := Request(table, items, t);
            && after == table && wait >= SECOND
            && exists item :: item in items && item.key == key && WellFormed(item) && !Grants(table, item, t)
                 && (later >= t + wait ==> Grants(table, item, later))
                 && (wait > SECOND && later < t + wait ==> !Grants(table, item, later))
  {
    var sorted := Sorted(items);
    forall x | x in sorted ensures x in items && OnlyAs(sorted, x) {
      assert x in multiset(sorted);
      SortedOnlyAs(items, x);
    }
    ReserveAllRefusal(table, sorted, t, later);
  }

  lemma {:induction false} ReserveAllInvalid(table: Table, items: seq<Item>, t: int)
    requires ReserveAll(table, items, t).0.Invalid?
    ensures exists item :: item in items && !(item.maximum >= 1 && item.window > 0)
    decreases |items|
  {
    if WellFormed(items[0]) {
      ReserveAllInvalid(Reserve(table, items[0], t).value, items[1..], t);
    }
  }

  /** A request is invalid only if it names a policy that allows nothing or has no window. */
  lemma InvalidPolicy(table: Table, items: seq<Item>, t: int)
    requires Request(table, items, t).0.Invalid?
    ensures exists item :: item in items && !(item.maximum >= 1 && item.window > 0)
  {
    ReserveAllInvalid(table, Sorted(items), t);
    var item :| item in Sorted(items) && !(item.maximum >= 1 && item.window > 0);
    assert item in multiset(Sorted(items));
  }

  // ----- runs -----

  /** A run interleaves requests with maintenance passes; a pass deletes any part it likes of the
      rows that expired more than a day before it (the code takes the oldest batch of them). */
  datatype Step = Attempt(at: int, items: seq<Item>) | Prune(at: int, victims: set<string>)

  function Pruned(table: Table, victims: set<string>, t: int): Table {
    map key | key in table && !(key in victims && table[key].expiresAt < t - DAY) :: table[key]
  }

  function After(table: Table, step: Step): Table {
    match step
    case Attempt(t, items) => Request(table, items, t).1
    case Prune(t, victims) => Pruned(table, victims, t)
  }

  ghost predicate InTimeOrder(steps: seq<Step>) {
    forall i, j :: 0 <= i < j < |steps| ==> steps[i].at <= steps[j].at
  }

  /** The answers a run gives, in order. */
  function Decisions(table: Table, steps: seq<Step>): seq<Outcome>
    decreases |steps|
  {
    if steps == [] then []
    else
      (if steps[0].Attempt? then [Request(table, steps[0].items, steps[0].at).0] else [])
      + Decisions(After(table, steps[0]), steps[1..])
  }

  function WithoutPrunes(steps: seq<Step>): seq<Step> {
    if steps == [] then []
    else (if steps[0].Attempt? then [steps[0]] else []) + WithoutPrunes(steps[1..])
  }

  // ----- pruning is invisible -----

  /** Two tables no request from t on can tell apart. */
  ghost predicate Agree(a: Table, b: Table, t: int) {
    forall key :: Live(a, key, t) == Live(b, key, t)
  }

  lemma AgreeLater(a: Table, b: Table, t: int, later: int)
    requires Agree(a, b, t) && t <= later
    ensures Agree(a, b, later)
  {
    forall key ensures Live(a, key, later) == Live(b, key, later) {
      assert Live(a, key, t) == Live(b, key, t);
    }
  }

  lemma {:induction false} ReserveAllAgrees(a: Table, b: Table, items: seq<Item>, t: int)
    requires Agree(a, b, t)
    ensures ReserveAll(a, items, t).0 == ReserveAll(b, items, t).0
    ensures ReserveAll(a, items, t).0.Committed? ==> Agree(ReserveAll(a, items, t).1, ReserveAll(b, items, t).1, t)
    decreases |items|
  {
    if items != [] && WellFormed(items[0]) {
      assert Live(a, items[0].key, t) == Live(b, items[0].key, t);
      var ra, rb := Reserve(a, items[0], t), Reserve(b, items[0], t);
      if ra.Some? {
        forall key ensures Live(ra.value, key, t) == Live(rb.value, key, t) {
          assert Live(a, key, t) == Live(b, key, t);
        }
        ReserveAllAgrees(ra.value, rb.value, items[1..], t);
      }
    }
  }

  /** A pass removes exactly the keys it picks among those that expired more than a day ago. */
  lemma PrunedExactly(table: Table, victims: set<string>, t: int, key: string)
    ensures key in Pruned(table, victims, t) <==> key in table && (key in victims ==> table[key].expiresAt >= t - DAY)
    ensures key in Pruned(table, victims, t) ==> Pruned(table, victims, t)[key] == table[key]
  {
  }

  lemma PrunedAgrees(table: Table, victims: set<string>, t: int)
    ensures Agree(Pruned(table, victims, t), table, t)
  {
  }

  lemma {:induction false} SameDecisions(a: Table, b: Table, steps: seq<Step>, t: int)
    requires InTimeOrder(steps) && Agree(a, b, t) && (steps != [] ==> t <= steps[0].at)
    ensures Decisions(a, steps) == Decisions(b, WithoutPrunes(steps))
    decreases |steps|
  {
    if steps != [] {
      var now, rest := steps[0].at, steps[1..];
      AgreeLater(a, b, t, now);
      match steps[0] {
        case Attempt(_, items) =>
          ReserveAllAgrees(a, b, Sorted(items), now);
          SameDecisions(After(a, steps[0]), After(b, steps[0]), rest, now);
          assert WithoutPrunes(steps)[1..] == WithoutPrunes(rest);
        case Prune(_, victims) =>
          PrunedAgrees(a, victims, now);
          assert Agree(After(a, steps[0]), b, now) by {
            forall key ensures Live(After(a, steps[0]), key, now) == Live(b, key, now) {
              assert Live(After(a, steps[0]), key, now) == Live(a, key, now);
            }
          }
          SameDecisions(After(a, steps[0]), b, rest, now);
          assert WithoutPrunes(steps) == WithoutPrunes(rest);
      }
    }
  }

  /** Maintenance passes inserted anywhere in a run change no answer, retry times included. */
  lemma {:induction false} PruningInvisible(table: Table, steps: seq<Step>)
    requires InTimeOrder(steps)
    ensures Decisions(table, steps) == Decisions(table, WithoutPrunes(steps))
  {
    if steps != [] {
      SameDecisions(table, table, steps, steps[0].at);
    }
  }

  // ----- how many reservations any interval holds -----

  /** Committed requests naming `item` with a time in the half-open interval from a to b. */
  function Commits(table: Table, steps: seq<Step>, item: Item, a: int, b: int): nat
    decreases |steps|
  {
    if steps == [] then 0
    else
      (if steps[0].Attempt? && item in steps[0].items && a <= steps[0].at < b
          && Request(table, steps[0].items, steps[0].at).0.Committed? then 1 else 0)
      + Commits(After(table, steps[0]), steps[1..], item, a, b)
  }

  /** Every request that names the key does so once, with one maximum and window. */
  ghost predicate FixedPolicy(steps: seq<Step>, item: Item) {
    WellFormed(item) && forall s :: s in steps && s.Attempt? ==> OnlyAs(s.items, item)
  }

  /** What is left of the open window, if one is open. */
  function Credit(live: Option<Row>, item: Item): nat {
    if live.Some? && live.value.used < item.maximum then item.maximum - live.value.used else 0
  }

  /** When the next window can open. */
  function Reopens(live: Option<Row>, t: int): int {
    if live.Some? then live.value.expiresAt else t
  }

  lemma {:induction false} StepOnKey(table: Table, step: Step, item: Item)
    requires WellFormed(item) && (step.Attempt? ==> OnlyAs(step.items, item))
    ensures Live(After(table, step), item.key, step.at) ==
            (if step.Attempt? && item in step.items && Request(table, step.items, step.at).0.Committed?
             then Granted(Live(table, item.key, step.at), item, step.at)
             else Live(table, item.key, step.at))
    ensures step.Attempt? && item in step.items && Request(table, step.items, step.at).0.Committed? ==>
              Granted(Live(table, item.key, step.at), item, step.at).Some?
  {
    match step
    case Attempt(t, items) => RequestOnKey(table, items, item, t);
    case Prune(t, victims) => PrunedAgrees(table, victims, t);
  }

  lemma {:induction false} NoneAfter(table: Table, steps: seq<Step>, item: Item, a: int, b: int)
    requires InTimeOrder(steps) && (steps != [] ==> steps[0].at >= b)
    ensures Commits(table, steps, item, a, b) == 0
    decreases |steps|
  {
    if steps != [] {
      NoneAfter(After(table, steps[0]), steps[1..], item, a, b);
    }
  }

  /** From time t on, and before b: what the open window still grants, plus `maximum` for each of the
      k windows that fit between the reopening and b. */
  lemma {:induction false} CommitsFrom(table: Table, steps: seq<Step>, item: Item, t: int, a: int, b: int, k: nat)
    requires InTimeOrder(steps) && FixedPolicy(steps, item) && (steps != [] ==> t <= steps[0].at)
    requires b - Reopens(Live(table, item.key, t), t) <= Times(k, item.window)
    ensures Commits(table, steps, item, a, b) <= Credit(Live(table, item.key, t), item) + Times(k, item.maximum)
    decreases |steps|
  {
    hide Request, After;
    TimesPositive(k, item.maximum);
    if steps != [] {
      var step, rest, now := steps[0], steps[1..], steps[0].at;
      var live := Live(table, item.key, now);
      StepOnKey(table, step, item);
      if now >= b {
        NoneAfter(table, steps, item, a, b);
      } else {
        var next := Live(After(table, step), item.key, now);
        if next != live && live.None? {
          CommitsFrom(After(table, step), rest, item, now, a, b, k - 1);
        } else {
          CommitsFrom(After(table, step), rest, item, now, a, b, k);
        }
      }
    }
  }

  /** The window bound, over every run: a half-open interval of length k windows holds at most
      (k + 1) * maximum - 1 committed reservations of the key. */
  lemma {:induction false} WindowBound(table: Table, steps: seq<Step>, item: Item, a: int, k: nat)
    requires InTimeOrder(steps) && FixedPolicy(steps, item) && k >= 1
    requires item.key in table ==> table[item.key].used >= 1
    ensures Commits(table, steps, item, a, a + k * item.window) <= (k + 1) * item.maximum - 1
  {
    hide InTimeOrder, FixedPolicy, Commits;
    BoundIsProduct(item, k);
    CommitsWithin(table, steps, item, a, a + Times(k, item.window), k);
  }

  lemma BoundIsProduct(item: Item, k: nat)
    ensures Times(k, item.window) == k * item.window
    ensures item.maximum - 1 + Times(k, item.maximum) == (k + 1) * item.maximum - 1
  {
    TimesIsProduct(k, item.window);
    TimesIsProduct(k, item.maximum);
  }

  /** k times x, by repeated addition. */
  function Times(k: nat, x: int): int {
    if k == 0 then 0 else Times(k - 1, x) + x
  }

  lemma {:induction false} TimesIsProduct(k: nat, x: int)
    ensures Times(k, x) == k * x
  {
    if k > 0 {
      TimesIsProduct(k - 1, x);
    }
  }

  lemma {:induction false} CommitsWithin(table: Table, steps: seq<Step>, item: Item, a: int, b: int, k: nat)
    requires InTimeOrder(steps) && FixedPolicy(steps, item) && k >= 1
    requires item.key in table ==> table[item.key].used >= 1
    requires b == a + Times(k, item.window)
    ensures Commits(table, steps, item, a, b) <= item.maximum - 1 + Times(k, item.maximum)
    decreases |steps|
  {
    if steps == [] {
      TimesPositive(k, item.maximum);
    } else if steps[0].at >= a {
      TimesPositive(k, item.window);
      CommitsFrom(table, steps, item, a, a, b, k);
    } else {
      RequestKeepsUsed(table, steps[0], item);
      CommitsWithin(After(table, steps[0]), steps[1..], item, a, b, k);
    }
  }

  lemma TimesPositive(k: nat, x: int)
    requires x > 0
    ensures Times(k, x) >= 0
  {
  }

  lemma RequestKeepsUsed(table: Table, step: Step, item: Item)
    requires WellFormed(item) && (step.Attempt? ==> OnlyAs(step.items, item))
    requires item.key in table ==> table[item.key].used >= 1
    ensures item.key in After(table, step) ==> After(table, step)[item.key].used >= 1
  {
    if step.Attempt? {
      RequestOnKey(table, step.items, item, step.at);
      UsedAtLeastOne(table, Sorted(step.items), item.key, step.at);
    }
  }

  lemma {:induction false} UsedAtLeastOne(table: Table, items: seq<Item>, key: string, t: int)
    requires key in table ==> table[key].used >= 1
    ensures key in ReserveAll(table, items, t).1 ==> ReserveAll(table, items, t).1[key].used >= 1
    decreases |items|
  {
    if items != [] && WellFormed(items[0]) && Reserve(table, items[0], t).Some? {
      UsedAtLeastOne(Reserve(table, items[0], t).value, items[1..], key, t);
    }
  }

  // ----- how far a budget is used -----

  function AfterAll(table: Table, steps: seq<Step>): Table
    decreases |steps|
  {
    if steps == [] then table else AfterAll(After(table, steps[0]), steps[1..])
  }

  function Counted(table: Table, step: Step, item: Item, a: int, b: int): nat {
    if step.Attempt? && item in step.items && a <= step.at < b && Request(table, step.items, step.at).0.Committed?
    then 1 else 0
  }

  lemma {:induction false} CommitsAppend(table: Table, steps: seq<Step>, step: Step, item: Item, a: int, b: int)
    ensures Commits(table, steps + [step], item, a, b)
            == Commits(table, steps, item, a, b) + Counted(AfterAll(table, steps), step, item, a, b)
    ensures AfterAll(table, steps + [step]) == After(AfterAll(table, steps), step)
    decreases |steps|
  {
    hide Request, After;
    if steps == [] {
      assert [] + [step] == [step] && [step][1..] == [];
    } else {
      assert (steps + [step])[1..] == steps[1..] + [step];
      CommitsAppend(After(table, steps[0]), steps[1..], step, item, a, b);
    }
  }

  lemma {:induction false} CommitsWiden(table: Table, steps: seq<Step>, item: Item, a: int, b: int, a': int, b': int)
    requires a' <= a && b <= b'
    ensures Commits(table, steps, item, a, b) <= Commits(table, steps, item, a', b')
    decreases |steps|
  {
    hide Request, After;
    if steps != [] {
      CommitsWiden(After(table, steps[0]), steps[1..], item, a, b, a', b');
    }
  }

  lemma Front(steps: seq<Step>, item: Item)
    requires steps != [] && InTimeOrder(steps) && FixedPolicy(steps, item)
    ensures var n := |steps| - 1;
            && steps == steps[..n] + [steps[n]] && InTimeOrder(steps[..n]) && FixedPolicy(steps[..n], item)
            && WellFormed(item) && (steps[n].Attempt? ==> OnlyAs(steps[n].items, item))
            && (n > 0 ==> steps[..n][n - 1].at <= steps[n].at)
  {
  }

  /** What the key's row counts are commits since its window opened, which was no later than `last`. */
  ghost predicate UsedWithin(steps: seq<Step>, item: Item, b: int, last: int) {
    var table := AfterAll(map[], steps);
    item.key in table ==>
      && table[item.key].used <= Commits(map[], steps, item, table[item.key].expiresAt - item.window, b)
      && table[item.key].expiresAt - item.window <= last
  }

  lemma {:induction false} UsedAreCommits(steps: seq<Step>, item: Item, b: int)
    requires InTimeOrder(steps) && FixedPolicy(steps, item)
    requires steps != [] ==> steps[|steps| - 1].at < b
    ensures forall last :: (steps != [] ==> steps[|steps| - 1].at <= last) ==> UsedWithin(steps, item, b, last)
    decreases |steps|
  {
    if steps != [] {
      Front(steps, item);
      hide InTimeOrder, FixedPolicy, OnlyAs;
      var n := |steps| - 1;
      UsedAreCommits(steps[..n], item, b);
      UsedStep(steps[..n], steps[n], item, b);
      forall last | steps[n].at <= last ensures UsedWithin(steps, item, b, last) {
      }
    }
  }

  lemma {:induction false} UsedStep(front: seq<Step>, step: Step, item: Item, b: int)
    requires WellFormed(item) && step.at < b && (step.Attempt? ==> OnlyAs(step.items, item))
    requires UsedWithin(front, item, b, step.at)
    ensures UsedWithin(front + [step], item, b, step.at)
  {
    hide AfterAll, Commits, Request, After, OnlyAs, Counted;
    var before := AfterAll(map[], front);
    var after := After(before, step);
    CommitsAppend(map[], front, step, item, 0, b);
    if item.key in after {
      CommitsAppend(map[], front, step, item, after[item.key].expiresAt - item.window, b);
      RowStep(before, step, item, b);
    }
  }

  /** One step leaves a key's row alone, or counts one more, or opens a window with one. */
  lemma RowStep(table: Table, step: Step, item: Item, b: int)
    requires WellFormed(item) && step.at < b && (step.Attempt? ==> OnlyAs(step.items, item))
    requires item.key in After(table, step)
    ensures var row := After(table, step)[item.key];
            var since := row.expiresAt - item.window;
            || (item.key in table && row == table[item.key])
            || (item.key in table && row == Row(table[item.key].used + 1, table[item.key].expiresAt)
                && (since <= step.at ==> Counted(table, step, item, since, b) == 1)
                && table[item.key].expiresAt > step.at)
            || (row == Row(1, step.at + item.window) && Counted(table, step, item, since, b) == 1)
  {
    match step
    case Attempt(t, items) =>
      hide Request;
      RequestOnKey(table, items, item, t);
    case Prune(t, victims) =>
  }

  // ----- the bound is attained -----

  function Burst(item: Item, t: int, n: nat): (steps: seq<Step>)
    ensures |steps| == n && forall i :: 0 <= i < n ==> steps[i] == Attempt(t, [item])
  {
    seq(n, _ => Attempt(t, [item]))
  }

  /** A full burst just before the end of each of the windows i to k. */
  function Bursts(item: Item, i: nat, k: nat): seq<Step>
    requires item.maximum >= 0
    decreases k + 1 - i
  {
    if i > k then [] else Burst(item, Times(i, item.window) - 1, item.maximum) + Bursts(item, i + 1, k)
  }

  /** One early request, the rest of its window at time 0, then a full burst at the end of every window. */
  function Saturating(item: Item, k: nat): seq<Step>
    requires item.maximum >= 1
  {
    [Attempt(-1, [item])] + Burst(item, 0, item.maximum - 1) + Bursts(item, 1, k)
  }

  /** A run that opens with one granted attempt counts it and goes on from the new row. */
  lemma SingleAttempt(item: Item, row: Row, t: int, rest: seq<Step>, a: int, b: int)
    requires WellFormed(item) && (row.expiresAt <= t || row.used < item.maximum) && a <= t < b
    ensures var next := if row.expiresAt <= t then Row(1, t + item.window) else Row(row.used + 1, row.expiresAt);
            Commits(map[item.key := row], [Attempt(t, [item])] + rest, item, a, b)
            == 1 + Commits(map[item.key := next], rest, item, a, b)
  {
    hide KeyOrder.Less, Commits;
    var table, steps := map[item.key := row], [Attempt(t, [item])] + rest;
    assert Sorted([item]) == [item];
    var reserved := Reserve(table, item, t).value;
    assert ReserveAll(table, [item], t) == ReserveAll(reserved, [], t);
    var next := if row.expiresAt <= t then Row(1, t + item.window) else Row(row.used + 1, row.expiresAt);
    assert reserved == map[item.key := next];
    assert steps[0] == Attempt(t, [item]) && steps[1..] == rest && item in steps[0].items;
    CommitsStep(table, steps, item, a, b);
  }

  lemma CommitsStep(table: Table, steps: seq<Step>, item: Item, a: int, b: int)
    requires steps != [] && steps[0].Attempt? && item in steps[0].items && a <= steps[0].at < b
    requires Request(table, steps[0].items, steps[0].at).0.Committed?
    ensures Commits(table, steps, item, a, b) == 1 + Commits(After(table, steps[0]), steps[1..], item, a, b)
  {
  }

  lemma BurstSplits(item: Item, t: int, n: nat, rest: seq<Step>)
    requires n > 0
    ensures Burst(item, t, n) + rest == [Attempt(t, [item])] + (Burst(item, t, n - 1) + rest)
  {
  }

  lemma {:induction false} BurstCommits(item: Item, row: Row, t: int, n: nat, rest: seq<Step>, a: int, b: int)
    requires WellFormed(item) && row.expiresAt > t && row.used + n <= item.maximum && a <= t < b
    ensures Commits(map[item.key := row], Burst(item, t, n) + rest, item, a, b)
            == n + Commits(map[item.key := Row(row.used + n, row.expiresAt)], rest, item, a, b)
    decreases n
  {
    hide Commits;
    if n == 0 {
      assert Burst(item, t, n) + rest == rest;
    } else {
      BurstSplits(item, t, n, rest);
      SingleAttempt(item, row, t, Burst(item, t, n - 1) + rest, a, b);
      BurstCommits(item, Row(row.used + 1, row.expiresAt), t, n - 1, rest, a, b);
    }
  }

  lemma {:induction false} BurstsCommit(item: Item, used: int, i: nat, k: nat, b: int)
    requires WellFormed(item) && 1 <= i <= k + 1 && b == Times(k, item.window)
    ensures Commits(map[item.key := Row(used, Times(i, item.window) - 1)], Bursts(item, i, k), item, 0, b)
            == Times(k + 1 - i, item.maximum)
    decreases k + 1 - i
  {
    if i <= k {
      hide Commits;
      var t, full, later := Times(i, item.window) - 1, item.maximum, Bursts(item, i + 1, k);
      TimesGrow(item.window, i, k);
      TimesPositive(i - 1, item.window);
      SingleAttempt(item, Row(used, t), t, Burst(item, t, full - 1) + later, 0, b);
      BurstSplits(item, t, full, later);
      BurstCommits(item, Row(1, t + item.window), t, full - 1, later, 0, b);
      BurstsCommit(item, full, i + 1, k, b);
    }
  }

  lemma {:induction false} TimesGrow(x: int, i: nat, k: nat)
    requires i <= k && x >= 0
    ensures Times(i, x) <= Times(k, x)
  {
    if i < k {
      TimesGrow(x, i, k - 1);
    }
  }

  lemma {:induction false} BurstsInOrder(item: Item, i: nat, k: nat)
    requires WellFormed(item) && 1 <= i
    ensures InTimeOrder(Bursts(item, i, k))
    ensures forall s :: s in Bursts(item, i, k) ==> s.at >= Times(i, item.window) - 1 && s == Attempt(s.at, [item])
    decreases k + 1 - i
  {
    if i <= k {
      BurstsInOrder(item, i + 1, k);
    }
  }

  /** For every policy with a window of at least two ticks and every k there is a run that reaches
      the bound exactly. */
  lemma BoundAttained(item: Item, k: nat)
    requires WellFormed(item) && item.window >= 2 && k >= 1
    ensures InTimeOrder(Saturating(item, k)) && FixedPolicy(Saturating(item, k), item)
    ensures Commits(map[], Saturating(item, k), item, 0, k * item.window) == (k + 1) * item.maximum - 1
  {
    hide InTimeOrder, FixedPolicy, Commits, Saturating;
    BoundIsProduct(item, k);
    SaturatingOrder(item, k);
    SaturatingCommits(item, k);
  }

  lemma SaturatingOrder(item: Item, k: nat)
    requires WellFormed(item) && item.window >= 2 && k >= 1
    ensures InTimeOrder(Saturating(item, k)) && FixedPolicy(Saturating(item, k), item)
  {
    BurstsInOrder(item, 1, k);
    assert Times(1, item.window) == item.window;
    assert multiset([item])[item] == 1;
  }

  lemma SaturatingCommits(item: Item, k: nat)
    requires WellFormed(item) && item.window >= 2 && k >= 1
    ensures Commits(map[], Saturating(item, k), item, 0, Times(k, item.window))
            == item.maximum - 1 + Times(k, item.maximum)
  {
    hide KeyOrder.Less, Commits;
    var steps, b := Saturating(item, k), Times(k, item.window);
    var rest := Burst(item, 0, item.maximum - 1) + Bursts(item, 1, k);
    assert Times(1, item.window) == item.window;
    TimesGrow(item.window, 1, k);
    assert Sorted([item]) == [item];
    assert ReserveAll(map[], [item], -1) == ReserveAll(Reserve(map[], item, -1).value, [], -1);
    assert After(map[], steps[0]) == map[item.key := Row(1, item.window - 1)];
    assert steps[1..] == rest && steps[0].at < 0;
    CommitsBefore(map[], steps, item, 0, b);
    BurstCommits(item, Row(1, item.window - 1), 0, item.maximum - 1, Bursts(item, 1, k), 0, b);
    BurstsCommit(item, item.maximum, 1, k, b);
  }

  lemma CommitsBefore(table: Table, steps: seq<Step>, item: Item, a: int, b: int)
    requires steps != [] && steps[0].at < a
    ensures Commits(table, steps, item, a, b) == Commits(After(table, steps[0]), steps[1..], item, a, b)
  {
  }
}
