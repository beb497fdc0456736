/** Claims and their (knowledge_date, id) order, shared by alert conditions and paging. */
module Claims {
  /** A field of a claim's value: a number, or anything else. */
  datatype Cell = Number(n: real) | NotANumber

  datatype Value = NotAnObject | Object(fields: map<string, Cell>)

  /** `id` stands for the 128-bit uuid, whose text and binary orders agree. */
  datatype Claim = Claim(
    id: nat, claimType: string, key: string, value: Value, source: string, eventDate: int, knowledgeDate: int)

  predicate Before(a: Claim, b: Claim) {
    a.knowledgeDate < b.knowledgeDate || (a.knowledgeDate == b.knowledgeDate && a.id < b.id)
  }

  /** Ids are primary keys: no claim is listed twice, and no two claims share an id. */
  ghost predicate DistinctIds(claims: multiset<Claim>) {
    && (forall c :: c in claims ==> claims[c] == 1)
    && (forall c, d :: c in claims && d in claims && c.id == d.id ==> c == d)
  }

  ghost predicate Ascending(claims: seq<Claim>) {
    forall i, j :: 0 <= i < j < |claims| ==> Before(claims[i], claims[j])
  }

  function Insert(c: Claim, sorted: seq<Claim>): (r: seq<Claim>)
    ensures multiset(r) == multiset(sorted) + multiset{c}
  {
    if sorted == [] then [c]
    else
      var n := |sorted| - 1;
      assert sorted == sorted[..n] + [sorted[n]];
      if Before(c, sorted[n]) then Insert(c, sorted[..n]) + [sorted[n]] else sorted + [c]
  }

  /** The claims oldest first, ties by id. */
  function Ordered(claims: seq<Claim>): (r: seq<Claim>)
    ensures multiset(r) == multiset(claims)
  {
    if claims == [] then []
    else
      var n := |claims| - 1;
      assert claims == claims[..n] + [claims[n]];
      Insert(claims[n], Ordered(claims[..n]))
  }

  lemma {:induction false} InsertAscends(c: Claim, sorted: seq<Claim>)
    requires Ascending(sorted) && forall x :: x in sorted ==> x.id != c.id
    ensures Ascending(Insert(c, sorted))
  {
    if sorted != [] {
      var n := |sorted| - 1;
      if Before(c, sorted[n]) {
        InsertAscends(c, sorted[..n]);
        var front := Insert(c, sorted[..n]);
        forall x | x in front ensures Before(x, sorted[n]) {
          assert x in multiset(front);
          assert x == c || x in sorted[..n];
        }
      }
    }
  }

  lemma {:induction false} OrderedAscends(claims: seq<Claim>)
    requires DistinctIds(multiset(claims))
    ensures Ascending(Ordered(claims))
    ensures var sorted := Ordered(claims);
            forall i, j :: 0 <= i < j < |sorted| ==>
              sorted[i].knowledgeDate < sorted[j].knowledgeDate
              || (sorted[i].knowledgeDate == sorted[j].knowledgeDate && sorted[i].id < sorted[j].id)
  {
    if claims != [] {
      var n := |claims| - 1;
      assert claims == claims[..n] + [claims[n]];
      var all, front := multiset(claims), multiset(claims[..n]);
      assert all == front + multiset{claims[n]};
      forall c | c in front ensures c in all && front[c] == 1 && c != claims[n] {
        assert all[c] == 1;
      }
      OrderedAscends(claims[..n]);
      forall x | x in Ordered(claims[..n]) ensures x.id != claims[n].id {
        assert x in multiset(Ordered(claims[..n]));
      }
      InsertAscends(claims[n], Ordered(claims[..n]));
    }
  }

  /** There is only one way to put claims in order. */
  lemma {:induction false} AscendingUnique(a: seq<Claim>, b: seq<Claim>)
    requires Ascending(a) && Ascending(b) && multiset(a) == multiset(b)
    ensures a == b
    decreases |a|
  {
    hide Ascending;
    assert |a| == |multiset(a)| == |multiset(b)| == |b|;
    if a != [] {
      var n := |a| - 1;
      LastIsGreatest(a, b, n);
      DropLast(a);
      DropLast(b);
      AscendingUnique(a[..n], b[..n]);
    }
  }

  lemma DropLast(a: seq<Claim>)
    requires a != [] && Ascending(a)
    ensures Ascending(a[..|a| - 1])
    ensures multiset(a[..|a| - 1]) == multiset(a) - multiset{a[|a| - 1]}
    ensures a == a[..|a| - 1] + [a[|a| - 1]]
  {
    assert a == a[..|a| - 1] + [a[|a| - 1]];
  }

  lemma LastIsGreatest(a: seq<Claim>, b: seq<Claim>, n: nat)
    requires Ascending(a) && Ascending(b) && multiset(a) == multiset(b) && |a| == |b| == n + 1
    ensures a[n] == b[n]
  {
    assert a[n] in multiset(b) && b[n] in multiset(a);
    AtMostLast(b, a[n]);
    AtMostLast(a, b[n]);
  }

  lemma AtMostLast(a: seq<Claim>, c: Claim)
    requires Ascending(a) && c in a
    ensures c == a[|a| - 1] || Before(c, a[|a| - 1])
  {
  }

  /** Whatever order the claims come in, ordering them gives the one ascending list. */
  lemma {:induction false} OrderedIs(claims: seq<Claim>, sorted: seq<Claim>)
    requires DistinctIds(multiset(claims)) && Ascending(sorted) && multiset(claims) == multiset(sorted)
    ensures Ordered(claims) == sorted
  {
    OrderedAscends(claims);
    AscendingUnique(Ordered(claims), sorted);
  }
}
