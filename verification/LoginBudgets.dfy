/** What logins draw on the shared budgets (src/omni/auth/admission.py): who is let past, over runs. */
module LoginBudgets {
  import opened Clock
  import opened Options
  import opened Budgets

  /** The deployment's budgets for one address and for one account, per minute. */
  datatype Limits = Limits(perAddress: int, perAccount: int)

  /** One login that reaches the budgets. */
  datatype Visit = Visit(ip: string, account: string, at: int)

  function AddressItem(ip: string, limits: Limits): Item {
    Item("credential:ip:" + ip, limits.perAddress, 60 * SECOND)
  }

  function AccountItem(account: string, limits: Limits): Item {
    Item("credential:account:" + account, limits.perAccount, 60 * SECOND)
  }

  /** The reservations of one login. */
  function Charges(ip: string, account: string, limits: Limits): seq<Item> {
    [AddressItem(ip, limits), AccountItem(account, limits)]
  }

  function Steps(visits: seq<Visit>, limits: Limits): (steps: seq<Step>)
    ensures |steps| == |visits|
  {
    seq(|visits|, i requires 0 <= i < |visits| =>
      Attempt(visits[i].at, Charges(visits[i].ip, visits[i].account, limits)))
  }

  /** Whether a login gets past the budgets after the visits before it. */
  function Passes(visits: seq<Visit>, limits: Limits, v: Visit): bool {
    Request(AfterAll(map[], Steps(visits, limits)), Charges(v.ip, v.account, limits), v.at).0.Committed?
  }

  /** How many of these visits got past the budgets in the half-open interval from a to b. */
  function Past(visits: seq<Visit>, limits: Limits, mine: Visit -> bool, a: int, b: int): nat {
    if visits == [] then 0
    else
      var n := |visits| - 1;
      Past(visits[..n], limits, mine, a, b)
      + if mine(visits[n]) && a <= visits[n].at < b && Passes(visits[..n], limits, visits[n]) then 1 else 0
  }

  function FromAddress(ip: string): Visit -> bool {
    (v: Visit) => v.ip == ip
  }

  function ForAccount(account: string): Visit -> bool {
    (v: Visit) => v.account == account
  }

  /** The item is charged to exactly these visits. */
  ghost predicate ChargedTo(item: Item, limits: Limits, mine: Visit -> bool) {
    forall v: Visit :: mine(v) <==> item in Charges(v.ip, v.account, limits)
  }

  ghost predicate Ascending(visits: seq<Visit>) {
    forall i, j :: 0 <= i < j < |visits| ==> visits[i].at <= visits[j].at
  }

  lemma KeysApart(ip: string, account: string, other: string)
    ensures "credential:ip:" + ip != "credential:account:" + account
    ensures "credential:ip:" + ip == "credential:ip:" + other ==> ip == other
    ensures "credential:account:" + account == "credential:account:" + other ==> account == other
  {
    assert ("credential:ip:" + ip)[11] == 'i' && ("credential:account:" + account)[11] == 'a';
    assert ("credential:ip:" + ip)[14..] == ip && ("credential:ip:" + other)[14..] == other;
    assert ("credential:account:" + account)[19..] == account && ("credential:account:" + other)[19..] == other;
  }

  /** A login names its own address and account, once each, and nobody else's. */
  lemma ChargesOnly(v: Visit, limits: Limits, ip: string, account: string)
    ensures var charges := Charges(v.ip, v.account, limits);
            && (AddressItem(ip, limits) in charges <==> v.ip == ip) && OnlyAs(charges, AddressItem(ip, limits))
            && (AccountItem(account, limits) in charges <==> v.account == account)
            && OnlyAs(charges, AccountItem(account, limits))
            && DistinctKeys(charges)
  {
    KeysApart(ip, v.account, v.ip);
    KeysApart(v.ip, account, v.ip);
    KeysApart(v.ip, v.account, account);
    KeysApart(ip, account, v.ip);
    var charges := Charges(v.ip, v.account, limits);
    assert charges[0].key != charges[1].key;
    assert multiset(charges) == multiset{charges[0], charges[1]};
  }

  lemma {:induction false} PastIsCommits(visits: seq<Visit>, limits: Limits, item: Item, mine: Visit -> bool, a: int, b: int)
    requires ChargedTo(item, limits, mine)
    ensures Past(visits, limits, mine, a, b) == Commits(map[], Steps(visits, limits), item, a, b)
  {
    hide Request, After, Charges;
    if visits != [] {
      var n := |visits| - 1;
      var step := Attempt(visits[n].at, Charges(visits[n].ip, visits[n].account, limits));
      PastIsCommits(visits[..n], limits, item, mine, a, b);
      assert Steps(visits, limits) == Steps(visits[..n], limits) + [step];
      CommitsAppend(map[], Steps(visits[..n], limits), step, item, a, b);
    }
  }

  lemma {:induction false} PolicyFixed(visits: seq<Visit>, limits: Limits, ip: string, account: string)
    requires Ascending(visits)
    ensures InTimeOrder(Steps(visits, limits))
    ensures limits.perAddress >= 1 ==> FixedPolicy(Steps(visits, limits), AddressItem(ip, limits))
    ensures limits.perAccount >= 1 ==> FixedPolicy(Steps(visits, limits), AccountItem(account, limits))
  {
    hide Charges, OnlyAs;
    var steps := Steps(visits, limits);
    forall s | s in steps && s.Attempt?
      ensures OnlyAs(s.items, AddressItem(ip, limits)) && OnlyAs(s.items, AccountItem(account, limits))
    {
      var i :| 0 <= i < |steps| && steps[i] == s;
      ChargesOnly(visits[i], limits, ip, account);
    }
  }

  lemma ItemsAre(limits: Limits, ip: string, account: string)
    ensures AddressItem(ip, limits).maximum == limits.perAddress && AddressItem(ip, limits).window == 60 * SECOND
    ensures AccountItem(account, limits).maximum == limits.perAccount && AccountItem(account, limits).window == 60 * SECOND
  {
  }

  lemma ByAddress(limits: Limits, ip: string)
    ensures ChargedTo(AddressItem(ip, limits), limits, FromAddress(ip))
  {
    hide Charges, AddressItem;
    forall v: Visit ensures FromAddress(ip)(v) <==> AddressItem(ip, limits) in Charges(v.ip, v.account, limits) {
      ChargesOnly(v, limits, ip, "");
    }
  }

  lemma ByAccount(limits: Limits, account: string)
    ensures ChargedTo(AccountItem(account, limits), limits, ForAccount(account))
  {
    hide Charges, AccountItem;
    forall v: Visit ensures ForAccount(account)(v) <==> AccountItem(account, limits) in Charges(v.ip, v.account, limits) {
      ChargesOnly(v, limits, "", account);
    }
  }

  /** From one address, for whatever accounts, fewer than k + 1 budgets of logins get past in k minutes. */
  lemma {:induction false} AddressBound(visits: seq<Visit>, limits: Limits, ip: string, a: int, k: nat)
    requires Ascending(visits) && limits.perAddress >= 1 && k >= 1
    ensures Past(visits, limits, FromAddress(ip), a, a + k * (60 * SECOND)) < (k + 1) * limits.perAddress
  {
    hide Charges, Past, Commits, FixedPolicy, InTimeOrder, Steps, ChargedTo, FromAddress, ForAccount, AddressItem,
         AccountItem, Ascending;
    ItemsAre(limits, ip, "");
    var item := AddressItem(ip, limits);
    PolicyFixed(visits, limits, ip, "");
    ByAddress(limits, ip);
    PastIsCommits(visits, limits, item, FromAddress(ip), a, a + k * (60 * SECOND));
    WindowBound(map[], Steps(visits, limits), item, a, k);
  }

  /** For one account, from whatever addresses, likewise. */
  lemma {:induction false} AccountBound(visits: seq<Visit>, limits: Limits, account: string, a: int, k: nat)
    requires Ascending(visits) && limits.perAccount >= 1 && k >= 1
    ensures Past(visits, limits, ForAccount(account), a, a + k * (60 * SECOND)) < (k + 1) * limits.perAccount
  {
    hide Charges, Past, Commits, FixedPolicy, InTimeOrder, Steps, ChargedTo, FromAddress, ForAccount, AddressItem,
         AccountItem, Ascending;
    ItemsAre(limits, "", account);
    var item := AccountItem(account, limits);
    PolicyFixed(visits, limits, "", account);
    ByAccount(limits, account);
    PastIsCommits(visits, limits, item, ForAccount(account), a, a + k * (60 * SECOND));
    WindowBound(map[], Steps(visits, limits), item, a, k);
  }

  lemma {:induction false} Grantable(visits: seq<Visit>, limits: Limits, item: Item, mine: Visit -> bool, at: int)
    requires InTimeOrder(Steps(visits, limits)) && FixedPolicy(Steps(visits, limits), item) && item.window == 60 * SECOND
    requires ChargedTo(item, limits, mine)
    requires visits != [] ==> visits[|visits| - 1].at <= at
    ensures Past(visits, limits, mine, at - 60 * SECOND + 1, at + 1) < item.maximum ==>
              Grants(AfterAll(map[], Steps(visits, limits)), item, at)
  {
    hide AfterAll, Commits, Request, After, Charges, InTimeOrder, ChargedTo;
    var steps := Steps(visits, limits);
    var table := AfterAll(map[], steps);
    UsedAreCommits(steps, item, at + 1);
    assert UsedWithin(steps, item, at + 1, at);
    PastIsCommits(visits, limits, item, mine, at - 60 * SECOND + 1, at + 1);
    if item.key in table && table[item.key].expiresAt > at {
      CommitsWiden(map[], steps, item, table[item.key].expiresAt - item.window, at + 1, at - 60 * SECOND + 1, at + 1);
    }
  }

  /** A login whose address and account have both got fewer logins past than their budgets in the last
      minute is not refused by the budgets. */
  lemma {:induction false} UnderBudgetPasses(visits: seq<Visit>, limits: Limits, v: Visit)
    requires Ascending(visits + [v]) && limits.perAddress >= 1 && limits.perAccount >= 1
    ensures Past(visits, limits, FromAddress(v.ip), v.at - 60 * SECOND + 1, v.at + 1) < limits.perAddress
            && Past(visits, limits, ForAccount(v.account), v.at - 60 * SECOND + 1, v.at + 1) < limits.perAccount
            ==> Passes(visits, limits, v)
  {
    hide Past, Request, Grants, AfterAll, FixedPolicy, InTimeOrder, Charges, Steps, DistinctKeys, Ascending, ChargedTo,
         FromAddress, ForAccount, AddressItem, AccountItem;
    ItemsAre(limits, v.ip, v.account);
    var byIp, byAccount := AddressItem(v.ip, limits), AccountItem(v.account, limits);
    var table := AfterAll(map[], Steps(visits, limits));
    LastVisit(visits, v);
    PolicyFixed(visits, limits, v.ip, v.account);
    ByAddress(limits, v.ip);
    ByAccount(limits, v.account);
    ChargedItems(v, limits);
    Grantable(visits, limits, byIp, FromAddress(v.ip), v.at);
    Grantable(visits, limits, byAccount, ForAccount(v.account), v.at);
    RequestCommitsIff(table, Charges(v.ip, v.account, limits), v.at);
  }

  lemma LastVisit(visits: seq<Visit>, v: Visit)
    requires Ascending(visits + [v])
    ensures Ascending(visits) && (visits != [] ==> visits[|visits| - 1].at <= v.at)
  {
    var all := visits + [v];
    assert forall i :: 0 <= i < |visits| ==> all[i] == visits[i];
    assert all[|visits|] == v;
  }

  lemma ChargedItems(v: Visit, limits: Limits)
    ensures DistinctKeys(Charges(v.ip, v.account, limits))
    ensures forall x :: x in Charges(v.ip, v.account, limits) ==>
              x == AddressItem(v.ip, limits) || x == AccountItem(v.account, limits)
  {
    ChargesOnly(v, limits, v.ip, v.account);
  }
}
