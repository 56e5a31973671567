/** Pagination: newest-first pages of a user's tasks. The database may order
    tasks of the same creation time differently in every statement. */
module TaskListing {
  import opened Common
  import opened Tasks

  const DEFAULT_PAGE_LIMIT := 20
  const MAX_PAGE_LIMIT := 100

  /** The WHERE clause; the empty status means no filter. */
  function Matching(rows: Table, userId: int, status: string): set<int> {
    set id | id in rows && rows[id].userId == userId && (status == "" || rows[id].status == status)
  }

  /** What ORDER BY created_at DESC may return for a set of rows. */
  ghost predicate IsListing(rows: Table, ids: set<int>, order: seq<int>) {
    && ids <= rows.Keys
    && |order| == |ids|
    && (forall i :: 0 <= i < |order| ==> order[i] in ids)
    && (forall i, j :: 0 <= i < j < |order| ==> order[i] != order[j])
    && (forall i, j :: 0 <= i < j < |order| ==> rows[order[i]].createdAt >= rows[order[j]].createdAt)
  }

  function Cap(x: nat, n: nat): nat { if x < n then x else n }

  /** LIMIT and OFFSET. */
  function Slice(order: seq<int>, limit: nat, offset: nat): seq<int> {
    order[Cap(offset, |order|)..Cap(offset + limit, |order|)]
  }

  lemma UnionSize(a: set<int>, b: set<int>, c: set<int>)
    requires a !! b && a !! c && b !! c
    ensures |a + b + c| == |a| + |b| + |c|
  {
    assert |a + b| == |a| + |b|;
  }

  /** The totals under the three statuses add up to the total without a filter. */
  lemma TotalsAddUp(rows: Table, userId: int)
    requires StatusesValid(rows)
    ensures |Matching(rows, userId, "")|
            == |Matching(rows, userId, "pending")|
               + |Matching(rows, userId, "in_progress")|
               + |Matching(rows, userId, "done")|
  {
    var pending, started, done :=
      Matching(rows, userId, "pending"), Matching(rows, userId, "in_progress"), Matching(rows, userId, "done");
    var all := Matching(rows, userId, "");
    forall id | id in all ensures id in pending + started + done {
      assert ValidStatus(rows[id].status);
    }
    assert all == pending + started + done;
    UnionSize(pending, started, done);
  }

  /** The limit that List applies. */
  function EffectiveLimit(limit: int): (l: nat)
    ensures 1 <= l <= MAX_PAGE_LIMIT && (1 <= limit <= MAX_PAGE_LIMIT ==> l == limit)
    ensures (limit > 100 ==> l == 100) && (limit <= 0 ==> l == 20)
  {
    if limit <= 0 then DEFAULT_PAGE_LIMIT else if limit > MAX_PAGE_LIMIT then MAX_PAGE_LIMIT else limit
  }

  /** The offset of page k: 0, L, 2L, ... */
  function Start(limit: nat, k: nat): nat { if k == 0 then 0 else Start(limit, k - 1) + limit }

  lemma {:induction false} StartIsMultiple(limit: nat, k: nat)
    ensures Start(limit, k) == k * limit
  {
    if k > 0 { StartIsMultiple(limit, k - 1); }
  }

  function Page(order: seq<int>, limit: nat, k: nat): seq<int> { Slice(order, limit, Start(limit, k)) }

  /** The first m pages in a row, page k read under the order that the database
      chose for it. */
  function Walk(orders: seq<seq<int>>, limit: nat, m: nat): seq<int>
    requires m <= |orders|
  {
    if m == 0 then [] else Walk(orders, limit, m - 1) + Page(orders[m - 1], limit, m - 1)
  }

  ghost predicate AllListings(rows: Table, ids: set<int>, orders: seq<seq<int>>) {
    forall k :: 0 <= k < |orders| ==> IsListing(rows, ids, orders[k])
  }

  /** Two tasks of one creation time lie on both sides of the cut at position c. */
  ghost predicate Straddles(rows: Table, order: seq<int>, c: nat)
    requires forall i :: 0 <= i < |order| ==> order[i] in rows
  {
    0 < c < |order| && rows[order[c - 1]].createdAt == rows[order[c]].createdAt
  }

  // ------------------------------------------------------ sets of positions

  function Elems(s: seq<int>): set<int> { set i | 0 <= i < |s| :: s[i] }

  lemma {:induction false} ElemsSize(s: seq<int>)
    requires forall i, j :: 0 <= i < j < |s| ==> s[i] != s[j]
    ensures |Elems(s)| == |s|
    decreases |s|
  {
    if s != [] {
      var rest := s[..|s| - 1];
      ElemsSize(rest);
      assert Elems(s) == Elems(rest) + {s[|s| - 1]};
    }
  }

  /** A listing contains every row of its set. */
  lemma ListingComplete(rows: Table, ids: set<int>, order: seq<int>)
    requires IsListing(rows, ids, order)
    ensures Elems(order) == ids
  {
    ElemsSize(order);
    SubsetSameSize(Elems(order), ids);
  }

  /** A newest row of a set. */
  lemma {:induction false} Newest(rows: Table, ids: set<int>) returns (x: int)
    requires ids <= rows.Keys && |ids| > 0
    ensures x in ids && forall y :: y in ids ==> rows[y].createdAt <= rows[x].createdAt
    decreases |ids|
  {
    x := Pick(ids);
    var rest := ids - {x};
    if |rest| > 0 {
      var y := Newest(rows, rest);
      if rows[y].createdAt > rows[x].createdAt { x := y; }
    } else {
      assert forall y :: y in ids ==> y in rest || y == x;
    }
  }

  /** Every set of rows has a listing. */
  lemma {:induction false} ListingExists(rows: Table, ids: set<int>) returns (order: seq<int>)
    requires ids <= rows.Keys
    ensures IsListing(rows, ids, order)
    decreases |ids|, 1
  {
    if |ids| == 0 {
      order := [];
    } else {
      var x := Newest(rows, ids);
      order := ListingFrom(rows, ids, x);
    }
  }

  /** Rows that are all not older than the others may be listed before them. */
  lemma ListingAppend(rows: Table, a: set<int>, o: seq<int>, b: set<int>, p: seq<int>)
    requires IsListing(rows, a, o) && IsListing(rows, b, p) && a !! b
    requires forall x, y :: x in a && y in b ==> rows[x].createdAt >= rows[y].createdAt
    ensures IsListing(rows, a + b, o + p)
  {
    var w := o + p;
    assert |a + b| == |a| + |b|;
    forall i, j | 0 <= i < j < |w| ensures w[i] != w[j] && rows[w[i]].createdAt >= rows[w[j]].createdAt {
      if i < |o| <= j { assert w[i] in a && w[j] in b; }
    }
  }

  /** A newest row may be listed first. */
  lemma ListingFrom(rows: Table, ids: set<int>, x: int) returns (order: seq<int>)
    requires ids <= rows.Keys && x in ids && forall y :: y in ids ==> rows[y].createdAt <= rows[x].createdAt
    ensures IsListing(rows, ids, order) && |order| > 0 && order[0] == x
    decreases |ids|, 0
  {
    var rest := ListingExists(rows, ids - {x});
    ListingAppend(rows, {x}, [x], ids - {x}, rest);
    assert {x} + (ids - {x}) == ids;
    order := [x] + rest;
  }

  /** A newest one of the rows that are not in front may be listed right after those in front. */
  lemma ListingVia(rows: Table, ids: set<int>, front: set<int>, x: int) returns (order: seq<int>)
    requires front <= ids <= rows.Keys && x in ids - front
    requires forall y :: y in ids - front ==> rows[y].createdAt <= rows[x].createdAt
    requires forall y, z :: y in front && z in ids - front ==> rows[y].createdAt >= rows[z].createdAt
    ensures IsListing(rows, ids, order) && |front| < |order| && order[|front|] == x
  {
    var o := ListingExists(rows, front);
    var p := ListingFrom(rows, ids - front, x);
    ListingAppend(rows, front, o, ids - front, p);
    assert front + (ids - front) == ids;
    order := o + p;
  }

  // ------------------------------------------- cuts that no tie straddles

  /** In a listing p, a row that is newer than row z comes before it. */
  lemma NewerFirst(rows: Table, ids: set<int>, p: seq<int>, x: int, j: nat)
    requires IsListing(rows, ids, p) && x in ids && j < |p| && rows[x].createdAt > rows[p[j]].createdAt
    ensures x in Elems(p[..j])
  {
    ListingComplete(rows, ids, p);
    assert x in Elems(p);
    var i :| 0 <= i < |p| && p[i] == x;
    assert p[..j][i] == x;
  }

  /** Every listing has the same rows before a cut that no tie straddles. */
  lemma SameBeforeCut(rows: Table, ids: set<int>, o: seq<int>, p: seq<int>, c: nat)
    requires IsListing(rows, ids, o) && IsListing(rows, ids, p) && c <= |o| && !Straddles(rows, o, c)
    ensures Elems(p[..c]) == Elems(o[..c])
  {
    ElemsSize(o[..c]);
    ElemsSize(p[..c]);
    if c == |o| {
      assert o[..c] == o && p[..c] == p;
      ListingComplete(rows, ids, o);
      ListingComplete(rows, ids, p);
    } else if c > 0 {
      forall j | 0 <= j < c ensures p[j] in Elems(o[..c]) {
        BeforeCut(rows, ids, o, p, c, j);
      }
      SubsetSameSize(Elems(p[..c]), Elems(o[..c]));
    }
  }

  /** If an early row of p were not among the first c rows of o, all those c rows
      would have to come before it in p. */
  lemma BeforeCut(rows: Table, ids: set<int>, o: seq<int>, p: seq<int>, c: nat, j: nat)
    requires IsListing(rows, ids, o) && IsListing(rows, ids, p) && j < c < |o| && !Straddles(rows, o, c)
    ensures p[j] in Elems(o[..c])
  {
    ListingComplete(rows, ids, o);
    assert p[j] in Elems(o);
    var i :| 0 <= i < |o| && o[i] == p[j];
    if i < c {
      assert o[..c][i] == p[j];
    } else {
      forall x | x in Elems(o[..c]) ensures x in Elems(p[..j]) {
        var a :| 0 <= a < c && o[a] == x;
        assert a == c - 1 || rows[o[a]].createdAt >= rows[o[c - 1]].createdAt;
        assert i == c || rows[o[c]].createdAt >= rows[o[i]].createdAt;
        NewerFirst(rows, ids, p, x, j);
      }
      ElemsSize(o[..c]);
      ElemsSize(p[..j]);
      SubsetSize(Elems(o[..c]), Elems(p[..j]));
    }
  }

  /** No tie straddles the start of page k. */
  ghost predicate CleanCut(rows: Table, order: seq<int>, limit: nat, k: nat)
    requires forall i :: 0 <= i < |order| ==> order[i] in rows
  {
    !Straddles(rows, order, Start(limit, k))
  }

  /** No tie straddles a page boundary. */
  ghost predicate CleanCuts(rows: Table, order: seq<int>, limit: nat)
    requires forall i :: 0 <= i < |order| ==> order[i] in rows
  {
    forall k: nat :: CleanCut(rows, order, limit, k)
  }

  /** The first m pages of a walk hold the first rows of the listing, each once
      and newest first, whatever order each page was read under. */
  ghost predicate WalkOk(rows: Table, order: seq<int>, w: seq<int>, c: nat) {
    && c <= |order| && |w| == c
    && Elems(w) == Elems(order[..c])
    && (forall i :: 0 <= i < c ==> w[i] in rows)
    && (forall i, j :: 0 <= i < j < c ==> w[i] != w[j] && rows[w[i]].createdAt >= rows[w[j]].createdAt)
  }

  lemma CapNotStraddled(rows: Table, order: seq<int>, limit: nat, k: nat)
    requires (forall i :: 0 <= i < |order| ==> order[i] in rows) && CleanCuts(rows, order, limit)
    ensures !Straddles(rows, order, Cap(Start(limit, k), |order|))
  {
    assert CleanCut(rows, order, limit, k);
  }

  /** What lies between two clean cuts is the same in every listing. */
  lemma SameBetweenCuts(rows: Table, ids: set<int>, o: seq<int>, p: seq<int>, a: nat, c: nat)
    requires IsListing(rows, ids, o) && IsListing(rows, ids, p) && a <= c <= |o|
    requires !Straddles(rows, o, a) && !Straddles(rows, o, c)
    ensures Elems(p[a..c]) == Elems(o[a..c])
  {
    SameBeforeCut(rows, ids, o, p, a);
    SameBeforeCut(rows, ids, o, p, c);
    ElemsBetween(o, a, c);
    ElemsBetween(p, a, c);
  }

  lemma ElemsBetween(s: seq<int>, a: nat, c: nat)
    requires a <= c <= |s| && forall i, j :: 0 <= i < j < |s| ==> s[i] != s[j]
    ensures Elems(s[..c]) == Elems(s[..a]) + Elems(s[a..c]) && Elems(s[..a]) !! Elems(s[a..c])
  {
    assert s[..c] == s[..a] + s[a..c];
    ElemsAppend(s[..a], s[a..c]);
  }

  lemma WalkExtends(rows: Table, ids: set<int>, o: seq<int>, p: seq<int>, w: seq<int>, a: nat, c: nat)
    requires IsListing(rows, ids, o) && IsListing(rows, ids, p) && a <= c <= |o|
    requires !Straddles(rows, o, a) && !Straddles(rows, o, c) && WalkOk(rows, o, w, a)
    ensures WalkOk(rows, o, w + p[a..c], c)
  {
    var w' := w + p[a..c];
    SameBetweenCuts(rows, ids, o, p, a, c);
    forall i, j | 0 <= i < a && a <= j < c
      ensures w'[i] != w'[j] && rows[w'[i]].createdAt >= rows[w'[j]].createdAt
    {
      Apart(rows, ids, o, p, w, a, c, i, j);
    }
    ElemsAppend(w, p[a..c]);
    ElemsBetween(o, a, c);
  }

  lemma ElemsAppend(a: seq<int>, b: seq<int>)
    ensures Elems(a + b) == Elems(a) + Elems(b)
  {
    forall i | 0 <= i < |a| ensures a[i] in Elems(a + b) { assert (a + b)[i] == a[i]; }
    forall i | 0 <= i < |b| ensures b[i] in Elems(a + b) { assert (a + b)[|a| + i] == b[i]; }
  }

  /** A row of an earlier page and one of the new page. */
  lemma Apart(rows: Table, ids: set<int>, o: seq<int>, p: seq<int>, w: seq<int>, a: nat, c: nat, i: nat, j: nat)
    requires IsListing(rows, ids, o) && IsListing(rows, ids, p) && i < a <= j < c <= |o|
    requires WalkOk(rows, o, w, a) && Elems(p[a..c]) == Elems(o[a..c])
    ensures w[i] != p[j] && rows[w[i]].createdAt >= rows[p[j]].createdAt
  {
    assert w[i] in Elems(w);
    var x :| 0 <= x < a && o[..a][x] == w[i];
    assert p[a..c][j - a] == p[j] && p[j] in Elems(p[a..c]);
    var y :| 0 <= y < c - a && o[a..c][y] == p[j];
    assert o[x] == w[i] && o[a + y] == p[j];
  }

  /** A page lies between two cuts. */
  lemma PageBetweenCuts(p: seq<int>, limit: nat, k: nat)
    ensures Page(p, limit, k) == p[Cap(Start(limit, k), |p|)..Cap(Start(limit, k + 1), |p|)]
  {
  }

  lemma WalkOneMore(rows: Table, ids: set<int>, o: seq<int>, p: seq<int>, w: seq<int>, limit: nat, k: nat)
    requires IsListing(rows, ids, o) && IsListing(rows, ids, p) && CleanCuts(rows, o, limit)
    requires WalkOk(rows, o, w, Cap(Start(limit, k), |o|))
    ensures WalkOk(rows, o, w + Page(p, limit, k), Cap(Start(limit, k + 1), |o|))
  {
    CapNotStraddled(rows, o, limit, k);
    CapNotStraddled(rows, o, limit, k + 1);
    PageBetweenCuts(p, limit, k);
    WalkExtends(rows, ids, o, p, w, Cap(Start(limit, k), |o|), Cap(Start(limit, k + 1), |o|));
  }

  lemma WalkStarts(rows: Table, o: seq<int>, limit: nat)
    ensures Cap(Start(limit, 0), |o|) == 0 && WalkOk(rows, o, [], 0)
  {
    assert Elems(o[..0]) == {} == Elems([]);
  }

  /** One more page of a walk. */
  lemma WalkGrows(rows: Table, ids: set<int>, o: seq<int>, orders: seq<seq<int>>, limit: nat, m: nat)
    requires IsListing(rows, ids, o) && AllListings(rows, ids, orders) && 0 < m <= |orders| && CleanCuts(rows, o, limit)
    requires WalkOk(rows, o, Walk(orders, limit, m - 1), Cap(Start(limit, m - 1), |o|))
    ensures WalkOk(rows, o, Walk(orders, limit, m), Cap(Start(limit, m), |o|))
  {
    assert IsListing(rows, ids, orders[m - 1]);
    WalkOneMore(rows, ids, o, orders[m - 1], Walk(orders, limit, m - 1), limit, m - 1);
  }

  lemma {:induction false} WalkOfPages(rows: Table, ids: set<int>, o: seq<int>, orders: seq<seq<int>>, limit: nat,
                                       m: nat)
    requires IsListing(rows, ids, o) && AllListings(rows, ids, orders) && m <= |orders|
    requires CleanCuts(rows, o, limit)
    ensures WalkOk(rows, o, Walk(orders, limit, m), Cap(Start(limit, m), |o|))
  {
    if m == 0 {
      WalkStarts(rows, o, limit);
    } else {
      WalkOfPages(rows, ids, o, orders, limit, m - 1);
      WalkGrows(rows, ids, o, orders, limit, m);
    }
  }

  /** If no tie straddles a page boundary, enough pages list every matching task
      exactly once, newest first: the walk is itself a listing. */
  lemma WalkIsListing(rows: Table, ids: set<int>, o: seq<int>, orders: seq<seq<int>>, limit: nat, m: nat)
    requires IsListing(rows, ids, o) && AllListings(rows, ids, orders) && m <= |orders|
    requires CleanCuts(rows, o, limit) && Start(limit, m) >= |o|
    ensures IsListing(rows, ids, Walk(orders, limit, m))
  {
    WalkOfPages(rows, ids, o, orders, limit, m);
    var w := Walk(orders, limit, m);
    assert o[..|o|] == o;
    ListingComplete(rows, ids, o);
    forall i | 0 <= i < |w| ensures w[i] in ids { assert w[i] in Elems(w); }
  }

  function Swapped(o: seq<int>, c: nat): seq<int>
    requires 0 < c < |o|
  {
    o[c - 1 := o[c]][c := o[c - 1]]
  }

  /** Exchanging two adjacent tasks of one creation time gives another listing. */
  lemma SwapIsListing(rows: Table, ids: set<int>, o: seq<int>, c: nat)
    requires IsListing(rows, ids, o) && Straddles(rows, o, c)
    ensures IsListing(rows, ids, Swapped(o, c))
  {
    var p := Swapped(o, c);
    forall i | 0 <= i < |p| ensures rows[p[i]].createdAt == rows[o[i]].createdAt {}
  }

  /** The last task of a page and the first of the next one. */
  lemma PageEnds(o: seq<int>, limit: nat, k: nat)
    requires limit > 0 && Start(limit, k + 1) < |o|
    ensures o[Start(limit, k + 1) - 1] in Page(o, limit, k) && o[Start(limit, k + 1)] in Page(o, limit, k + 1)
  {
    var c := Start(limit, k + 1);
    assert Page(o, limit, k)[limit - 1] == o[c - 1];
    assert Page(o, limit, k + 1)[0] == o[c];
  }

  /** If a tie straddles a page boundary, the database may return one task on both
      of the adjacent pages. */
  lemma StraddleRepeats(rows: Table, ids: set<int>, o: seq<int>, limit: nat, k: nat)
    requires IsListing(rows, ids, o) && limit > 0 && Straddles(rows, o, Start(limit, k + 1))
    ensures var p := Swapped(o, Start(limit, k + 1));
            var x := o[Start(limit, k + 1) - 1];
            IsListing(rows, ids, p) && x in Page(o, limit, k) && x in Page(p, limit, k + 1)
  {
    var c := Start(limit, k + 1);
    SwapIsListing(rows, ids, o, c);
    PageEnds(o, limit, k);
    PageEnds(Swapped(o, c), limit, k);
  }

  /** Every walk over every choice of orders lists each task once, exactly when no
      tie straddles a page boundary. */
  lemma WalksPartitionIff(rows: Table, ids: set<int>, o: seq<int>, limit: nat)
    requires IsListing(rows, ids, o) && limit > 0
    ensures CleanCuts(rows, o, limit) <==>
            forall orders, m: nat :: AllListings(rows, ids, orders) && m <= |orders| && Start(limit, m) >= |o| ==>
              IsListing(rows, ids, Walk(orders, limit, m))
  {
    if CleanCuts(rows, o, limit) {
      forall orders, m: nat | AllListings(rows, ids, orders) && m <= |orders| && Start(limit, m) >= |o|
        ensures IsListing(rows, ids, Walk(orders, limit, m))
      {
        WalkIsListing(rows, ids, o, orders, limit, m);
      }
    } else {
      var k: nat :| !CleanCut(rows, o, limit, k);
      StraddleRepeats(rows, ids, o, limit, k - 1);
      BadWalk(rows, ids, o, Swapped(o, Start(limit, k)), limit, k);
    }
  }

  lemma {:induction false} StartGrows(limit: nat, k: nat, m: nat)
    requires k <= m
    ensures Start(limit, k) <= Start(limit, m) && (limit > 0 ==> m <= Start(limit, m))
  {
    if m > 0 { StartGrows(limit, if k < m then k else m - 1, m - 1); }
  }

  /** Page k stands in the walk right after the pages before it. */
  lemma {:induction false} PageInWalk(orders: seq<seq<int>>, limit: nat, m: nat, k: nat, u: nat)
    requires k < m <= |orders| && u < |Page(orders[k], limit, k)|
    ensures |Walk(orders, limit, k)| + u < |Walk(orders, limit, m)|
    ensures Walk(orders, limit, m)[|Walk(orders, limit, k)| + u] == Page(orders[k], limit, k)[u]
  {
    if k < m - 1 { PageInWalk(orders, limit, m - 1, k, u); }
  }

  ghost function IndexOf(s: seq<int>, x: int): (u: nat)
    requires x in s
    ensures u < |s| && s[u] == x
  {
    var u: nat :| u < |s| && s[u] == x; u
  }

  /** A task that is on two pages of a walk is in the walk twice. */
  lemma TwicePaged(orders: seq<seq<int>>, limit: nat, m: nat, k: nat, x: int) returns (i: nat, j: nat)
    requires 0 < k < m <= |orders|
    requires x in Page(orders[k - 1], limit, k - 1) && x in Page(orders[k], limit, k)
    ensures i < j < |Walk(orders, limit, m)| && Walk(orders, limit, m)[i] == Walk(orders, limit, m)[j] == x
  {
    var u, v := IndexOf(Page(orders[k - 1], limit, k - 1), x), IndexOf(Page(orders[k], limit, k), x);
    assert |Walk(orders, limit, k)| == |Walk(orders, limit, k - 1)| + |Page(orders[k - 1], limit, k - 1)|;
    PageInWalk(orders, limit, m, k - 1, u);
    PageInWalk(orders, limit, m, k, v);
    i, j := |Walk(orders, limit, k - 1)| + u, |Walk(orders, limit, k)| + v;
  }

  /** Page k - 1 read under o and page k read under p share a task. */
  lemma BadWalk(rows: Table, ids: set<int>, o: seq<int>, p: seq<int>, limit: nat, k: nat)
    requires IsListing(rows, ids, o) && IsListing(rows, ids, p) && limit > 0 && k > 0
    requires exists x :: x in Page(o, limit, k - 1) && x in Page(p, limit, k)
    ensures exists orders, m: nat :: AllListings(rows, ids, orders) && m <= |orders| && Start(limit, m) >= |o|
              && !IsListing(rows, ids, Walk(orders, limit, m))
  {
    var m := |o| + k + 1;
    var orders := seq(m, i => if i == k then p else o);
    StartGrows(limit, 0, m);
    var x :| x in Page(o, limit, k - 1) && x in Page(p, limit, k);
    var i, j := TwicePaged(orders, limit, m, k, x);
    assert AllListings(rows, ids, orders) && !IsListing(rows, ids, Walk(orders, limit, m));
  }

  // ---------------------------------------------- distinct creation times

  ghost predicate DistinctTimes(rows: Table, ids: set<int>) {
    && ids <= rows.Keys
    && forall i, j :: i in ids && j in ids && rows[i].createdAt == rows[j].createdAt ==> i == j
  }

  /** With distinct creation times there is only one listing. */
  lemma {:induction false} ListingUnique(rows: Table, ids: set<int>, o: seq<int>, p: seq<int>, c: nat)
    requires DistinctTimes(rows, ids) && IsListing(rows, ids, o) && IsListing(rows, ids, p) && c <= |o|
    ensures o[..c] == p[..c]
    decreases c
  {
    if c > 0 {
      ListingUnique(rows, ids, o, p, c - 1);
      SameBetweenCuts(rows, ids, o, p, c - 1, c);
      assert o[c - 1..c] == [o[c - 1]] && p[c - 1..c] == [p[c - 1]];
      assert Elems([p[c - 1]]) == {p[c - 1]} && Elems([o[c - 1]]) == {o[c - 1]};
      assert o[..c] == o[..c - 1] + [o[c - 1]] && p[..c] == p[..c - 1] + [p[c - 1]];
    }
  }

  /** With distinct creation times the pages concatenate to the one newest-first
      list, a page is empty exactly from offset total on, and total is the length. */
  lemma PagesPartition(rows: Table, ids: set<int>, o: seq<int>, orders: seq<seq<int>>, limit: nat, m: nat)
    requires DistinctTimes(rows, ids) && IsListing(rows, ids, o) && AllListings(rows, ids, orders) && limit > 0
    requires m <= |orders| && m * limit >= |ids|
    ensures Walk(orders, limit, m) == o && |o| == |ids|
    ensures forall k :: 0 <= k < |orders| ==> (Page(orders[k], limit, k) == [] <==> k * limit >= |ids|)
  {
    StartIsMultiple(limit, m);
    forall k: nat ensures CleanCut(rows, o, limit, k) {}
    WalkIsListing(rows, ids, o, orders, limit, m);
    ListingUnique(rows, ids, o, Walk(orders, limit, m), |o|);
    assert o[..|o|] == o && Walk(orders, limit, m)[..|o|] == Walk(orders, limit, m);
    forall k | 0 <= k < |orders| ensures Page(orders[k], limit, k) == [] <==> k * limit >= |ids| {
      StartIsMultiple(limit, k);
    }
  }
}
