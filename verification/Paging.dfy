/** Keyset paging over a vintage-selected view of claims (src/omni/api/coverage.py). */
module Paging {
  import opened Options
  import opened Sets
  import opened Claims

  const PAGE_SIZE_MAX: int := 1000

  datatype Query = Query(
    claimType: Option<string>, key: Option<string>, asOf: Option<int>, limit: int,
    beforeDate: Option<int>, beforeId: Option<nat>)

  datatype Response = BadRequest | Page(limit: int, claims: seq<Claim>)

  function Keep(claims: seq<Claim>, wanted: Claim -> bool): seq<Claim> {
    if claims == [] then []
    else
      var n := |claims| - 1;
      if wanted(claims[n]) then Keep(claims[..n], wanted) + [claims[n]] else Keep(claims[..n], wanted)
  }

  /** The filters of a request, cursor aside. */
  predicate Matches(q: Query, c: Claim) {
    && (q.claimType.Some? ==> c.claimType == q.claimType.value)
    && (q.key.Some? ==> c.key == q.key.value)
    && (q.asOf.Some? ==> c.knowledgeDate <= q.asOf.value)
  }

  predicate SamePeriod(a: Claim, b: Claim) {
    a.claimType == b.claimType && a.key == b.key && a.eventDate == b.eventDate
  }

  /** Row number one of its period: nothing kept of the same period comes later. */
  predicate FirstOfPeriod(kept: seq<Claim>, c: Claim) {
    forall i :: 0 <= i < |kept| && SamePeriod(kept[i], c) ==> !Before(c, kept[i])
  }

  /** The selection the cursor is applied to: one vintage per period under as_of, every match otherwise. */
  function Selected(store: seq<Claim>, q: Query): seq<Claim> {
    var kept := Keep(store, c => Matches(q, c));
    if q.asOf.Some? then Keep(kept, c => FirstOfPeriod(kept, c)) else kept
  }

  /** The position a page starts below. */
  datatype Cursor = Top | Below(date: int, id: nat)

  predicate Under(c: Claim, cursor: Cursor) {
    cursor.Below? ==> c.knowledgeDate < cursor.date || (c.knowledgeDate == cursor.date && c.id < cursor.id)
  }

  function Reversed(s: seq<Claim>): (r: seq<Claim>)
    ensures |r| == |s| && forall i :: 0 <= i < |s| ==> r[i] == s[|s| - 1 - i]
  {
    seq(|s|, i requires 0 <= i < |s| => s[|s| - 1 - i])
  }

  function Newest(claims: seq<Claim>): seq<Claim> {
    Reversed(Ordered(claims))
  }

  function Clamp(limit: int): (size: nat)
    ensures 1 <= size <= PAGE_SIZE_MAX
  {
    if limit < 1 then 1 else if limit > PAGE_SIZE_MAX then PAGE_SIZE_MAX else limit
  }

  function PageAt(store: seq<Claim>, q: Query, cursor: Cursor): seq<Claim> {
    var rows := Newest(Keep(Selected(store, q), c => Under(c, cursor)));
    if |rows| <= Clamp(q.limit) then rows else rows[..Clamp(q.limit)]
  }

  /** The endpoint: an unknown claim type or half a cursor is refused before any query runs. */
  function ListClaims(store: seq<Claim>, knownTypes: set<string>, q: Query): Response {
    if q.claimType.Some? && q.claimType.value !in knownTypes then BadRequest
    else if q.beforeDate.Some? != q.beforeId.Some? then BadRequest
    else
      var cursor := if q.beforeDate.Some? then Below(q.beforeDate.value, q.beforeId.value) else Top;
      Page(Clamp(q.limit), PageAt(store, q, cursor))
  }

  // ----- what a page holds -----

  ghost predicate Descending(s: seq<Claim>) {
    forall i, j :: 0 <= i < j < |s| ==> Before(s[j], s[i])
  }

  lemma {:induction false} KeepMembers(claims: seq<Claim>, wanted: Claim -> bool)
    ensures forall c :: c in Keep(claims, wanted) <==> c in claims && wanted(c)
    ensures forall c :: multiset(Keep(claims, wanted))[c] <= multiset(claims)[c]
  {
    if claims != [] {
      var n := |claims| - 1;
      assert claims == claims[..n] + [claims[n]];
      KeepMembers(claims[..n], wanted);
    }
  }

  lemma FewerDistinct(a: seq<Claim>, b: seq<Claim>)
    requires DistinctIds(multiset(b)) && forall c :: multiset(a)[c] <= multiset(b)[c]
    ensures DistinctIds(multiset(a))
  {
    forall c | c in multiset(a) ensures multiset(a)[c] == 1 && c in multiset(b) {
      assert multiset(a)[c] <= multiset(b)[c];
    }
  }

  lemma SelectedDistinct(store: seq<Claim>, q: Query)
    requires DistinctIds(multiset(store))
    ensures DistinctIds(multiset(Selected(store, q)))
  {
    var kept := Keep(store, c => Matches(q, c));
    KeepMembers(store, c => Matches(q, c));
    KeepMembers(kept, c => FirstOfPeriod(kept, c));
    FewerDistinct(kept, store);
    FewerDistinct(Selected(store, q), kept);
  }

  lemma NewestDescends(claims: seq<Claim>)
    requires DistinctIds(multiset(claims))
    ensures Descending(Newest(claims)) && forall c :: c in Newest(claims) <==> c in claims
  {
    OrderedAscends(claims);
    var ordered, newest := Ordered(claims), Newest(claims);
    forall c ensures c in newest <==> c in claims {
      assert c in ordered <==> c in multiset(ordered);
      if c in ordered {
        var i :| 0 <= i < |ordered| && ordered[i] == c;
        assert newest[|ordered| - 1 - i] == c;
      }
    }
  }

  /** A page is the newest rows of the selection under the cursor: descending, and whatever it leaves
      out is older than all of it, which then is a full page. */
  lemma {:induction false} PageFacts(store: seq<Claim>, q: Query, cursor: Cursor)
    requires DistinctIds(multiset(store))
    ensures var page := PageAt(store, q, cursor);
            && Descending(page) && |page| <= Clamp(q.limit)
            && (forall c :: c in page ==> c in Selected(store, q) && Under(c, cursor))
            && (forall c :: c in Selected(store, q) && Under(c, cursor) && c !in page ==>
                  |page| == Clamp(q.limit) && forall x :: x in page ==> Before(c, x))
  {
    hide Newest, Selected, Before, Descending, DistinctIds, Keep;
    var selected := Selected(store, q);
    var kept := Keep(selected, c => Under(c, cursor));
    SelectedDistinct(store, q);
    KeepMembers(selected, c => Under(c, cursor));
    FewerDistinct(kept, selected);
    NewestDescends(kept);
    var rows, page := Newest(kept), PageAt(store, q, cursor);
    FirstOf(rows, Clamp(q.limit));
    assert page == if |rows| <= Clamp(q.limit) then rows else rows[..Clamp(q.limit)];
    forall c | c in page ensures c in selected && Under(c, cursor) {
      assert c in rows;
      assert c in kept;
    }
  }

  lemma FirstOf(rows: seq<Claim>, size: nat)
    requires Descending(rows) && size >= 1
    ensures var page := if |rows| <= size then rows else rows[..size];
            && Descending(page)
            && (forall c :: c in page ==> c in rows)
            && (forall c :: c in rows && c !in page ==> |page| == size && forall x :: x in page ==> Before(c, x))
  {
    var page := if |rows| <= size then rows else rows[..size];
    forall c | c in rows && c !in page ensures |page| == size && forall x :: x in page ==> Before(c, x) {
      var i :| 0 <= i < |rows| && rows[i] == c;
      assert |rows| > size;
      assert forall k :: 0 <= k < |page| ==> rows[k] in page by {
        assert forall k :: 0 <= k < |page| ==> page[k] == rows[k];
      }
      assert i >= |page|;
      forall x | x in page ensures Before(c, x) {
        var k :| 0 <= k < |page| && page[k] == x;
        assert rows[k] == x;
      }
    }
  }

  /** What a request can find, in its own terms: the claims of its type and key; under as_of only those
      known by then, and of each period (type, key and event date) only the latest of these, ties by id. */
  lemma SelectedIff(store: seq<Claim>, q: Query, c: Claim)
    ensures c in Selected(store, q) <==>
            && c in store
            && (q.claimType.Some? ==> c.claimType == q.claimType.value)
            && (q.key.Some? ==> c.key == q.key.value)
            && (q.asOf.Some? ==>
                  && c.knowledgeDate <= q.asOf.value
                  && forall x :: x in store && x.knowledgeDate <= q.asOf.value
                                 && x.claimType == c.claimType && x.key == c.key && x.eventDate == c.eventDate ==>
                       x.knowledgeDate < c.knowledgeDate || (x.knowledgeDate == c.knowledgeDate && x.id <= c.id))
  {
    var kept := Keep(store, x => Matches(q, x));
    KeepMembers(store, x => Matches(q, x));
    KeepMembers(kept, x => FirstOfPeriod(kept, x));
    if q.asOf.Some? && c in kept {
      if FirstOfPeriod(kept, c) {
        forall x | x in store && x.knowledgeDate <= q.asOf.value && SamePeriod(x, c) ensures !Before(c, x) {
          assert x in kept;
          var i :| 0 <= i < |kept| && kept[i] == x;
        }
      } else {
        var i :| 0 <= i < |kept| && SamePeriod(kept[i], c) && Before(c, kept[i]);
        assert kept[i] in kept;
      }
    }
  }

  /** The endpoint refuses exactly unknown types and half cursors; otherwise it reports the limit it used:
      the one asked for, brought between 1 and 1000. */
  lemma RefusedIff(store: seq<Claim>, knownTypes: set<string>, q: Query)
    ensures var response := ListClaims(store, knownTypes, q);
            && (response.BadRequest? <==>
                  || (q.claimType.Some? && q.claimType.value !in knownTypes)
                  || (q.beforeDate.Some? && q.beforeId.None?) || (q.beforeDate.None? && q.beforeId.Some?))
            && (response.Page? ==>
                  && |response.claims| <= response.limit
                  && (1 <= q.limit <= 1000 ==> response.limit == q.limit)
                  && (q.limit < 1 ==> response.limit == 1) && (q.limit > 1000 ==> response.limit == 1000))
  {
    hide Newest, Selected, Keep;
  }

  // ----- following the cursor -----

  function CursorAt(page: seq<Claim>): Cursor
    requires page != []
  {
    var last := page[|page| - 1];
    Below(last.knowledgeDate, last.id)
  }

  /** The rows a reader collects: one request per listed state of the store, each with the cursor of
      the page before, until a page is empty or the list runs out. */
  function Collected(stores: seq<seq<Claim>>, q: Query, cursor: Cursor): seq<Claim>
    decreases |stores|
  {
    if stores == [] then []
    else
      var page := PageAt(stores[0], q, cursor);
      if page == [] then [] else page + Collected(stores[1..], q, CursorAt(page))
  }

  /** The reader saw an empty page. */
  predicate Finished(stores: seq<seq<Claim>>, q: Query, cursor: Cursor)
    decreases |stores|
  {
    stores != []
    && var page := PageAt(stores[0], q, cursor);
       page == [] || Finished(stores[1..], q, CursorAt(page))
  }

  ghost predicate AllDistinct(stores: seq<seq<Claim>>) {
    forall n :: 0 <= n < |stores| ==> DistinctIds(multiset(stores[n]))
  }

  lemma UnderLater(page: seq<Claim>, c: Claim, cursor: Cursor)
    requires page != [] && Descending(page) && (forall x :: x in page ==> Under(x, cursor))
    requires Under(c, CursorAt(page))
    ensures Under(c, cursor) && forall x :: x in page ==> Before(c, x)
  {
    var last := page[|page| - 1];
    assert last in page;
  }

  lemma DescendingAppend(a: seq<Claim>, b: seq<Claim>)
    requires Descending(a) && Descending(b)
    requires forall x, y :: x in a && y in b ==> Before(y, x)
    ensures Descending(a + b)
  {
    var s := a + b;
    forall i, j | 0 <= i < j < |s| ensures Before(s[j], s[i]) {
      if i < |a| <= j {
        assert s[i] in a && s[j] in b;
      }
    }
  }

  /** Even while the store changes between requests, a reader never sees a row twice, and rows come
      strictly newest first across all pages. */
  lemma {:induction false} CollectedDescends(stores: seq<seq<Claim>>, q: Query, cursor: Cursor)
    requires AllDistinct(stores)
    ensures Descending(Collected(stores, q, cursor))
    ensures forall c :: c in Collected(stores, q, cursor) ==> Under(c, cursor)
    decreases |stores|
  {
    hide PageAt, DistinctIds;
    if stores != [] {
      PageFacts(stores[0], q, cursor);
      var page := PageAt(stores[0], q, cursor);
      if page != [] {
        var rest := Collected(stores[1..], q, CursorAt(page));
        CollectedDescends(stores[1..], q, CursorAt(page));
        forall c | c in rest ensures Under(c, cursor) && forall x :: x in page ==> Before(c, x) {
          UnderLater(page, c, cursor);
        }
        DescendingAppend(page, rest);
      }
    }
  }

  /** A row that is selected in every state the reader saw is on one of the pages. */
  lemma {:induction false} NothingSkipped(stores: seq<seq<Claim>>, q: Query, cursor: Cursor, c: Claim)
    requires AllDistinct(stores) && Finished(stores, q, cursor) && Under(c, cursor)
    requires forall n :: 0 <= n < |stores| ==> c in Selected(stores[n], q)
    ensures c in Collected(stores, q, cursor)
    decreases |stores|
  {
    hide PageAt, DistinctIds, Selected;
    PageFacts(stores[0], q, cursor);
    var page := PageAt(stores[0], q, cursor);
    if page != [] && c !in page {
      assert page[|page| - 1] in page;
      NothingSkipped(stores[1..], q, CursorAt(page), c);
    }
  }

  lemma {:induction false} CollectedSelected(stores: seq<seq<Claim>>, q: Query, cursor: Cursor, c: Claim)
    requires AllDistinct(stores)
    ensures c in Collected(stores, q, cursor) ==> exists n :: 0 <= n < |stores| && c in Selected(stores[n], q)
    decreases |stores|
  {
    hide PageAt, DistinctIds, Selected;
    if c in Collected(stores, q, cursor) {
      PageFacts(stores[0], q, cursor);
      var page := PageAt(stores[0], q, cursor);
      if c !in page {
        CollectedSelected(stores[1..], q, CursorAt(page), c);
        var n :| 0 <= n < |stores[1..]| && c in Selected(stores[1..][n], q);
        assert stores[n + 1] == stores[1..][n];
      }
    }
  }

  lemma {:induction false} KeepCongruent(claims: seq<Claim>, f: Claim -> bool, g: Claim -> bool)
    requires forall c :: c in claims ==> f(c) == g(c)
    ensures Keep(claims, f) == Keep(claims, g)
  {
    if claims != [] {
      KeepCongruent(claims[..|claims| - 1], f, g);
    }
  }

  /** The endpoint serves exactly these pages: the same request, resent with the last row's date and
      id, answers with the next page. */
  lemma NextRequest(store: seq<Claim>, knownTypes: set<string>, q: Query, cursor: Cursor)
    requires q.claimType.Some? ==> q.claimType.value in knownTypes
    ensures var next := if cursor.Below? then q.(beforeDate := Some(cursor.date), beforeId := Some(cursor.id))
                        else q.(beforeDate := None, beforeId := None);
            ListClaims(store, knownTypes, next) == Page(Clamp(q.limit), PageAt(store, q, cursor))
  {
    hide Ordered;
    var next := if cursor.Below? then q.(beforeDate := Some(cursor.date), beforeId := Some(cursor.id))
                else q.(beforeDate := None, beforeId := None);
    KeepCongruent(store, c => Matches(q, c), c => Matches(next, c));
    var kept := Keep(store, c => Matches(q, c));
    KeepCongruent(kept, c => FirstOfPeriod(kept, c), c => FirstOfPeriod(Keep(store, x => Matches(next, x)), c));
    assert Selected(store, next) == Selected(store, q);
    KeepCongruent(Selected(store, q), c => Under(c, cursor),
                  c => Under(c, if next.beforeDate.Some? then Below(next.beforeDate.value, next.beforeId.value) else Top));
  }

  // ----- a store that does not change -----

  function Unchanged(store: seq<Claim>, n: nat): (stores: seq<seq<Claim>>)
    ensures |stores| == n && forall i :: 0 <= i < n ==> stores[i] == store
  {
    seq(n, _ => store)
  }

  ghost function Remaining(store: seq<Claim>, q: Query, cursor: Cursor): set<Claim> {
    set c | c in Selected(store, q) && Under(c, cursor)
  }

  /** Every page takes something, so as many requests as selected rows, and one more, see the end. */
  lemma {:induction false} ReaderFinishes(store: seq<Claim>, q: Query, cursor: Cursor, n: nat)
    requires DistinctIds(multiset(store)) && n > |Remaining(store, q, cursor)|
    ensures Finished(Unchanged(store, n), q, cursor)
    decreases n
  {
    hide PageAt, Selected, DistinctIds;
    PageFacts(store, q, cursor);
    var page := PageAt(store, q, cursor);
    if page != [] {
      var last := page[|page| - 1];
      assert last in page;
      var before, after := Remaining(store, q, cursor), Remaining(store, q, CursorAt(page));
      forall c | c in after ensures c in before - {last} {
        UnderLater(page, c, cursor);
      }
      SmallerSet(after, before - {last});
      ReaderFinishes(store, q, CursorAt(page), n - 1);
      assert Unchanged(store, n)[1..] == Unchanged(store, n - 1);
    }
  }

  lemma HasMember(s: seq<Claim>)
    ensures s != [] ==> exists c :: c in s
  {
    if s != [] {
      assert s[0] in s;
    }
  }

  lemma {:induction false} DescendingUnique(a: seq<Claim>, b: seq<Claim>)
    requires Descending(a) && Descending(b) && forall c :: c in a <==> c in b
    ensures a == b
    decreases |a|
  {
    HasMember(b);
    if a != [] {
      assert a[0] in b;
      assert a[0] == b[0] by {
        assert b[0] in a;
      }
      forall c ensures c in a[1..] <==> c in b[1..] {
        assert c in a <==> c == a[0] || c in a[1..];
        assert c in b <==> c == b[0] || c in b[1..];
      }
      DescendingUnique(a[1..], b[1..]);
    }
  }

  /** Keyset paging is a partition: with any limit, following the cursor over an unchanging store to
      the first empty page yields every selected claim exactly once, in (knowledge_date, id)
      descending order, ties included. */
  lemma {:induction false} PagesPartition(store: seq<Claim>, q: Query, n: nat)
    requires DistinctIds(multiset(store)) && n > |Selected(store, q)|
    ensures Finished(Unchanged(store, n), q, Top)
    ensures var rows := Collected(Unchanged(store, n), q, Top);
            && rows == Newest(Selected(store, q))
            && (forall c :: c in rows <==> c in Selected(store, q))
            && forall i, j :: 0 <= i < j < |rows| ==>
                 rows[i].knowledgeDate > rows[j].knowledgeDate
                 || (rows[i].knowledgeDate == rows[j].knowledgeDate && rows[i].id > rows[j].id)
  {
    hide PageAt, Selected, DistinctIds, Ordered, Finished, Collected;
    var stores, selected := Unchanged(store, n), Selected(store, q);
    AtMostAsMany(selected);
    SmallerSet(Remaining(store, q, Top), set c | c in selected);
    ReaderFinishes(store, q, Top, n);
    var rows := Collected(stores, q, Top);
    CollectedDescends(stores, q, Top);
    SelectedDistinct(store, q);
    NewestDescends(selected);
    forall c ensures c in rows <==> c in selected {
      if c in selected {
        NothingSkipped(stores, q, Top, c);
      }
      if c in rows {
        CollectedSelected(stores, q, Top, c);
      }
    }
    DescendingUnique(rows, Newest(selected));
  }

  lemma {:induction false} AtMostAsMany<T>(s: seq<T>)
    ensures |set x | x in s| <= |s|
  {
    if s != [] {
      var n := |s| - 1;
      AtMostAsMany(s[..n]);
      assert (set x | x in s) == (set x | x in s[..n]) + {s[n]};
    }
  }

  // ----- vintages -----

  /** Under as_of no page shows a superseded vintage: nothing knowable by then, of the same period and
      anywhere in the store, is later than the row shown. */
  lemma {:induction false} NoSupersededVintage(store: seq<Claim>, q: Query, cursor: Cursor, c: Claim, d: Claim)
    requires DistinctIds(multiset(store)) && q.asOf.Some?
    requires c in PageAt(store, q, cursor)
    requires d in store && d.claimType == c.claimType && d.key == c.key && d.eventDate == c.eventDate
    requires d.knowledgeDate <= q.asOf.value
    ensures c in store && c.knowledgeDate <= q.asOf.value
    ensures d.knowledgeDate < c.knowledgeDate || (d.knowledgeDate == c.knowledgeDate && d.id <= c.id)
  {
    hide PageAt, Selected, DistinctIds;
    PageFacts(store, q, cursor);
    SelectedIff(store, q, c);
  }

  lemma VintageOf(store: seq<Claim>, q: Query, c: Claim)
    requires q.asOf.Some?
    ensures var kept := Keep(store, x => Matches(q, x));
            c in Selected(store, q) <==> c in kept && FirstOfPeriod(kept, c)
  {
    var kept := Keep(store, x => Matches(q, x));
    KeepMembers(kept, x => FirstOfPeriod(kept, x));
  }

  /** Every period with a knowable match is represented, by exactly one row. */
  lemma EveryPeriodOnce(store: seq<Claim>, q: Query, c: Claim) returns (v: Claim)
    requires DistinctIds(multiset(store)) && q.asOf.Some? && c in store && Matches(q, c)
    ensures v in Selected(store, q) && SamePeriod(v, c)
    ensures forall w :: w in Selected(store, q) && SamePeriod(w, c) ==> w == v
  {
    hide Selected;
    var kept := Keep(store, x => Matches(q, x));
    KeepMembers(store, x => Matches(q, x));
    v := LatestOfPeriod(kept, c);
    VintageOf(store, q, v);
    forall w | w in Selected(store, q) && SamePeriod(w, c) ensures w == v {
      VintageOf(store, q, w);
      var i :| 0 <= i < |kept| && kept[i] == w;
      var j :| 0 <= j < |kept| && kept[j] == v;
      assert w.id == v.id;
      assert w in multiset(store) && v in multiset(store);
    }
  }

  lemma LatestOfPeriod(kept: seq<Claim>, c: Claim) returns (v: Claim)
    requires c in kept
    ensures v in kept && SamePeriod(v, c) && FirstOfPeriod(kept, v)
  {
    v := c;
    for i := 0 to |kept|
      invariant v in kept && SamePeriod(v, c)
      invariant forall k :: 0 <= k < i && SamePeriod(kept[k], v) ==> !Before(v, kept[k])
    {
      if SamePeriod(kept[i], v) && Before(v, kept[i]) {
        v := kept[i];
      }
    }
  }
}
