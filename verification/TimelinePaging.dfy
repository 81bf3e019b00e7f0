/**
 The chronological observation list and its cursor.

 Creation times are compared as opaque ordered keys; the order of rows with equal keys is left
 to the database.
 */
module TimelinePaging {
  import opened Common

  datatype Row = Row(id: string, project: string, session: string, hookType: string, files: seq<string>, key: int)

  /** Empty strings and absent keys do not filter. */
  datatype Filter = Filter(project: string, session: string, hookType: string, filePath: string,
                           after: Option<int>, before: Option<int>)

  predicate Matches(f: Filter, r: Row) {
    && (f.project != "" ==> r.project == f.project)
    && (f.session != "" ==> r.session == f.session)
    && (f.hookType != "" ==> r.hookType == f.hookType)
    && (f.filePath != "" ==> f.filePath in r.files)
    && (f.after.Some? ==> r.key > f.after.value)
    && (f.before.Some? ==> r.key < f.before.value)
  }

  function Matching(rows: seq<Row>, f: Filter): seq<Row> {
    if rows == [] then []
    else Matching(rows[..|rows| - 1], f) + if Matches(f, rows[|rows| - 1]) then [rows[|rows| - 1]] else []
  }

  ghost predicate Ascending(s: seq<Row>) {
    forall i, j :: 0 <= i < j < |s| ==> s[i].key <= s[j].key
  }

  /** A row goes behind every row that is not later. */
  function Insert(s: seq<Row>, r: Row): seq<Row> {
    if s == [] then [r]
    else if s[0].key <= r.key then [s[0]] + Insert(s[1..], r)
    else [r] + s
  }

  function Sorted(rows: seq<Row>): seq<Row> {
    if rows == [] then [] else Insert(Sorted(rows[..|rows| - 1]), rows[|rows| - 1])
  }

  function Take(s: seq<Row>, n: nat): seq<Row> {
    if |s| <= n then s else s[..n]
  }

  function TimelineLimit(limit: int): (r: nat)
    ensures r > 0
  {
    if limit <= 0 then 50 else limit
  }

  function RequestLimit(limit: int): (r: nat)
    ensures 0 < r <= 200
  {
    if limit <= 0 || limit > 200 then 50 else limit
  }

  /** The matching rows in chronological order; which of several rows of the same time comes first
      is for the database to choose, in every query anew. */
  ghost predicate IsOrdering(rows: seq<Row>, f: Filter, s: seq<Row>) {
    Ascending(s) && multiset(s) == multiset(Matching(rows, f))
  }

  method Timeline(rows: seq<Row>, f: Filter, limit: int) returns (out: seq<Row>)
    ensures exists s :: IsOrdering(rows, f, s) && out == Take(s, TimelineLimit(limit))
  {
    var sorted: seq<Row> := [];
    for i := 0 to |rows|
      invariant sorted == Sorted(Matching(rows[..i], f))
    {
      assert rows[..i + 1] == rows[..i] + [rows[i]];
      MatchingStep(rows[..i], rows[i], f);
      if Matches(f, rows[i]) {
        sorted := Insert(sorted, rows[i]);
      }
    }
    assert rows[..|rows|] == rows;
    SortedIsAscending(Matching(rows, f));
    assert IsOrdering(rows, f, sorted);
    out := Take(sorted, TimelineLimit(limit));
  }

  /** One answer: a page and, if the page is full, the cursor for the next. */
  function PageOf(s: seq<Row>, limit: nat): (r: (seq<Row>, Option<int>))
    requires limit > 0
    ensures r.1.Some? <==> |r.0| == limit
  {
    (Take(s, limit), if |s| >= limit then Some(s[limit - 1].key) else None)
  }

  method List(rows: seq<Row>, f: Filter, limit: int) returns (entries: seq<Row>, nextCursor: Option<int>)
    ensures exists s :: IsOrdering(rows, f, s) && (entries, nextCursor) == PageOf(s, RequestLimit(limit))
    ensures |entries| <= if limit <= 0 || limit > 200 then 50 else limit
    ensures nextCursor.Some? <==> |entries| == if limit <= 0 || limit > 200 then 50 else limit
  {
    var n := limit;
    if n <= 0 || n > 200 {
      n := 50;
    }
    entries := Timeline(rows, f, n);
    nextCursor := None;
    if |entries| == n {
      nextCursor := Some(entries[|entries| - 1].key);
    }
    ghost var s :| IsOrdering(rows, f, s) && entries == Take(s, n);
    assert IsOrdering(rows, f, s) && (entries, nextCursor) == PageOf(s, RequestLimit(limit));
  }

  // ---------------------------------------------------------------------------
  // Sorting and filtering
  // ---------------------------------------------------------------------------

  lemma {:induction false} InsertAscends(s: seq<Row>, r: Row)
    requires Ascending(s)
    ensures Ascending(Insert(s, r)) && Insert(s, r) != []
    ensures Insert(s, r)[0] == r || (s != [] && Insert(s, r)[0] == s[0])
  {
    if s != [] && s[0].key <= r.key {
      InsertAscends(s[1..], r);
      ConsAscends(s[0], Insert(s[1..], r));
    } else if s != [] {
      ConsAscends(r, s);
    }
  }

  lemma ConsAscends(x: Row, s: seq<Row>)
    requires Ascending(s) && s != [] && x.key <= s[0].key
    ensures Ascending([x] + s)
  {
  }

  lemma {:induction false} InsertPermutes(s: seq<Row>, r: Row)
    ensures multiset(Insert(s, r)) == multiset(s) + multiset{r}
  {
    if s != [] {
      InsertPermutes(s[1..], r);
      assert s == [s[0]] + s[1..];
    }
  }

  lemma {:induction false} SortedIsAscending(rows: seq<Row>)
    ensures Ascending(Sorted(rows)) && multiset(Sorted(rows)) == multiset(rows)
    decreases |rows|
  {
    if rows != [] {
      assert rows == rows[..|rows| - 1] + [rows[|rows| - 1]];
      SortedIsAscending(rows[..|rows| - 1]);
      InsertAscends(Sorted(rows[..|rows| - 1]), rows[|rows| - 1]);
      InsertPermutes(Sorted(rows[..|rows| - 1]), rows[|rows| - 1]);
    }
  }

  lemma MatchingStep(init: seq<Row>, r: Row, f: Filter)
    ensures Matching(init + [r], f) == Matching(init, f) + if Matches(f, r) then [r] else []
    ensures Sorted(Matching(init + [r], f))
         == if Matches(f, r) then Insert(Sorted(Matching(init, f)), r) else Sorted(Matching(init, f))
  {
    var rows, m := init + [r], Matching(init, f);
    assert rows[..|rows| - 1] == init;
    assert (m + [r])[..|m|] == m;
    assert m + [] == m;
  }

  /** The rows later than `k`. */
  function Above(s: seq<Row>, k: int): seq<Row> {
    if s == [] then [] else Above(s[..|s| - 1], k) + if s[|s| - 1].key > k then [s[|s| - 1]] else []
  }

  lemma AboveAppend(s: seq<Row>, r: Row, k: int)
    ensures Above(s + [r], k) == Above(s, k) + if r.key > k then [r] else []
  {
    assert (s + [r])[..|s|] == s;
  }

  /** A later cursor filters what the earlier one lets through. */
  lemma {:induction false} AfterFilters(rows: seq<Row>, f: Filter, k: int)
    requires f.after.Some? ==> f.after.value <= k
    ensures Matching(rows, f.(after := Some(k))) == Above(Matching(rows, f), k)
    decreases |rows|
  {
    if rows != [] {
      var init, r := rows[..|rows| - 1], rows[|rows| - 1];
      AfterFilters(init, f, k);
      AboveAppend(Matching(init, f), r, k);
      assert Matching(init, f) + [] == Matching(init, f);
      assert Above(Matching(init, f), k) + [] == Above(Matching(init, f), k);
    }
  }

  lemma {:induction false} AboveCount(s: seq<Row>, k: int, x: Row)
    ensures multiset(Above(s, k))[x] == if x.key > k then multiset(s)[x] else 0
    decreases |s|
  {
    if s != [] {
      var init, last := s[..|s| - 1], s[|s| - 1];
      assert s == init + [last];
      AboveCount(init, k, x);
    }
  }

  lemma AbovePermutes(a: seq<Row>, b: seq<Row>, k: int)
    requires multiset(a) == multiset(b)
    ensures multiset(Above(a, k)) == multiset(Above(b, k))
  {
    forall x ensures multiset(Above(a, k))[x] == multiset(Above(b, k))[x] {
      AboveCount(a, k, x);
      AboveCount(b, k, x);
    }
  }

  /** Where the later rows of an ascending list start. */
  lemma {:induction false} FirstAbove(s: seq<Row>, k: int) returns (i: nat)
    requires Ascending(s)
    ensures i <= |s| && forall j :: 0 <= j < |s| ==> (s[j].key > k <==> j >= i)
    decreases |s|
  {
    if s == [] || s[|s| - 1].key <= k {
      i := |s|;
    } else {
      i := FirstAbove(s[..|s| - 1], k);
    }
  }

  lemma SuffixAppend(s: seq<Row>, r: Row, i: nat)
    requires i <= |s|
    ensures (s + [r])[i..] == s[i..] + [r]
  {
  }

  lemma {:induction false} AboveIsSuffix(s: seq<Row>, k: int, i: nat)
    requires i <= |s| && forall j :: 0 <= j < |s| ==> (s[j].key > k <==> j >= i)
    ensures Above(s, k) == s[i..]
    decreases |s|
  {
    if s != [] {
      var init, last := s[..|s| - 1], s[|s| - 1];
      AboveAppend(init, last, k);
      assert s == init + [last];
      if i == |s| {
        AboveIsSuffix(init, k, i - 1);
      } else {
        AboveIsSuffix(init, k, i);
        SuffixAppend(init, last, i);
      }
    }
  }

  /** Asking for later rows only gives, up to the order of rows of the same time, the full list
      without its front. */
  lemma AfterIsSuffix(rows: seq<Row>, f: Filter, k: int, s: seq<Row>) returns (i: nat)
    requires (f.after.Some? ==> f.after.value <= k) && IsOrdering(rows, f, s)
    ensures i <= |s| && IsOrdering(rows, f.(after := Some(k)), s[i..])
    ensures forall j :: 0 <= j < |s| ==> (s[j].key > k <==> j >= i)
  {
    i := FirstAbove(s, k);
    AboveIsSuffix(s, k, i);
    AfterFilters(rows, f, k);
    AbovePermutes(s, Matching(rows, f), k);
  }

  // --- the times determine the order ------------------------------------------------

  function Keys(s: seq<Row>): (r: seq<int>)
    ensures |r| == |s| && forall i :: 0 <= i < |s| ==> r[i] == s[i].key
  {
    seq(|s|, i requires 0 <= i < |s| => s[i].key)
  }

  lemma KeysAppend(a: seq<Row>, b: seq<Row>)
    ensures Keys(a + b) == Keys(a) + Keys(b)
  {
  }

  lemma KeysInsert(init: seq<Row>, b: seq<Row>, i: nat)
    requires i < |b| && multiset(Keys(init)) == multiset(Keys(b[..i] + b[i + 1..]))
    ensures multiset(Keys(init + [b[i]])) == multiset(Keys(b))
  {
    var x, y, k := Keys(b[..i]), Keys(b[i + 1..]), Keys([b[i]]);
    KeysAppend(init, [b[i]]);
    KeysAppend(b[..i], b[i + 1..]);
    KeysAppend(b[..i], [b[i]]);
    KeysAppend(b[..i] + [b[i]], b[i + 1..]);
    assert b == b[..i] + [b[i]] + b[i + 1..];
    assert Keys(b) == x + k + y;
    assert multiset(x + k + y) == multiset(x + y) + multiset(k);
  }

  lemma {:induction false} KeysPermute(a: seq<Row>, b: seq<Row>)
    requires multiset(a) == multiset(b)
    ensures multiset(Keys(a)) == multiset(Keys(b))
    decreases |a|
  {
    if a == [] {
      assert |multiset(b)| == |b|;
    } else {
      var init, last := a[..|a| - 1], a[|a| - 1];
      assert a == init + [last];
      assert multiset(a) == multiset(init) + multiset{last};
      var i := FindElement(init, last, b);
      KeysPermute(init, b[..i] + b[i + 1..]);
      KeysInsert(init, b, i);
    }
  }

  lemma HeadAndTail(a: seq<int>)
    requires a != []
    ensures multiset(a) == multiset(a[1..]) + multiset{a[0]} && a == [a[0]] + a[1..]
  {
    assert a == [a[0]] + a[1..];
  }

  lemma LeastIsShared(a: seq<int>, b: seq<int>)
    requires a != [] && b != [] && multiset(a) == multiset(b)
    requires forall i, j :: 0 <= i < j < |a| ==> a[i] <= a[j]
    ensures a[0] <= b[0]
  {
    assert b[0] in multiset(a);
    var i :| 0 <= i < |a| && a[i] == b[0];
  }

  lemma {:induction false} SortedIntsAreUnique(a: seq<int>, b: seq<int>)
    requires forall i, j :: 0 <= i < j < |a| ==> a[i] <= a[j]
    requires forall i, j :: 0 <= i < j < |b| ==> b[i] <= b[j]
    requires multiset(a) == multiset(b)
    ensures a == b
    decreases |a|
  {
    assert |multiset(a)| == |a| && |multiset(b)| == |b|;
    if a != [] {
      LeastIsShared(a, b);
      LeastIsShared(b, a);
      HeadAndTail(a);
      HeadAndTail(b);
      CancelOne(multiset(a[1..]), multiset(b[1..]), a[0]);
      SortedIntsAreUnique(a[1..], b[1..]);
    }
  }

  lemma KeysAreDetermined(a: seq<Row>, b: seq<Row>)
    requires Ascending(a) && Ascending(b) && multiset(a) == multiset(b)
    ensures Keys(a) == Keys(b)
  {
    KeysPermute(a, b);
    SortedIntsAreUnique(Keys(a), Keys(b));
  }

  // ---------------------------------------------------------------------------
  // Walking the cursor
  // ---------------------------------------------------------------------------

  /** A client follows the cursor; `orders` are the orderings the database chose, one a request. */
  ghost predicate IsWalk(rows: seq<Row>, f: Filter, limit: nat, orders: seq<seq<Row>>)
    requires limit > 0
    decreases |orders|
  {
    orders != [] && IsOrdering(rows, f, orders[0]) &&
    var cursor := PageOf(orders[0], limit).1;
    if cursor.None? then |orders| == 1 else IsWalk(rows, f.(after := cursor), limit, orders[1..])
  }

  /** All pages, one after the other. */
  function Collected(orders: seq<seq<Row>>, limit: nat): seq<Row> {
    if orders == [] then [] else Take(orders[0], limit) + Collected(orders[1..], limit)
  }

  lemma MatchingMatches(rows: seq<Row>, f: Filter, r: Row)
    requires r in multiset(Matching(rows, f))
    ensures Matches(f, r) && r in rows
    decreases |rows|
  {
    var init, last := rows[..|rows| - 1], rows[|rows| - 1];
    if r in Matching(init, f) {
      MatchingMatches(init, f, r);
    }
  }

  /** What a full page leaves for the requests after it. */
  lemma NextOrdering(rows: seq<Row>, f: Filter, limit: nat, s: seq<Row>) returns (i: nat)
    requires 0 < limit <= |s| && IsOrdering(rows, f, s)
    ensures limit <= i <= |s| && IsOrdering(rows, f.(after := Some(s[limit - 1].key)), s[i..])
    ensures forall j :: 0 <= j < |s| ==> (s[j].key > s[limit - 1].key <==> j >= i)
  {
    assert s[limit - 1] in multiset(s);
    MatchingMatches(rows, f, s[limit - 1]);
    i := AfterIsSuffix(rows, f, s[limit - 1].key, s);
  }

  /** A walk as a chain of lists, without the filter: each list but the last is followed by some
      ordering of its rows later than its page. */
  ghost predicate IsChain(orders: seq<seq<Row>>, limit: nat)
    requires limit > 0
    decreases |orders|
  {
    orders != [] && Ascending(orders[0]) &&
    if |orders[0]| < limit then |orders| == 1
    else |orders| > 1 && Follows(orders[0], orders[1], limit) && IsChain(orders[1..], limit)
  }

  ghost predicate Follows(s: seq<Row>, t: seq<Row>, limit: nat)
    requires 0 < limit <= |s|
  {
    exists i :: IsRest(s, t, limit, i)
  }

  predicate IsRest(s: seq<Row>, t: seq<Row>, limit: nat, i: int)
    requires 0 < limit <= |s|
  {
    && limit <= i <= |s| && multiset(t) == multiset(s[i..])
    && forall j :: 0 <= j < |s| ==> (s[j].key > s[limit - 1].key <==> j >= i)
  }

  lemma {:induction false} WalkIsChain(rows: seq<Row>, f: Filter, limit: nat, orders: seq<seq<Row>>)
    requires limit > 0 && IsWalk(rows, f, limit, orders)
    ensures IsChain(orders, limit)
    decreases |orders|
  {
    var s := orders[0];
    if |s| >= limit {
      var i := NextOrdering(rows, f, limit, s);
      WalkIsChain(rows, f.(after := Some(s[limit - 1].key)), limit, orders[1..]);
      assert IsRest(s, orders[1], limit, i);
    }
  }

  lemma WalkExtends(rows: seq<Row>, f: Filter, limit: nat, s: seq<Row>, rest: seq<seq<Row>>)
    requires 0 < limit <= |s| && IsOrdering(rows, f, s)
    requires IsWalk(rows, f.(after := Some(s[limit - 1].key)), limit, rest)
    ensures IsWalk(rows, f, limit, [s] + rest)
  {
    assert ([s] + rest)[1..] == rest;
  }

  lemma NextIsShorter(rows: seq<Row>, f: Filter, limit: nat, s: seq<Row>)
    requires 0 < limit <= |s| && IsOrdering(rows, f, s)
    ensures |Matching(rows, f.(after := Some(s[limit - 1].key)))| < |Matching(rows, f)|
  {
    var g := f.(after := Some(s[limit - 1].key));
    var i := NextOrdering(rows, f, limit, s);
    assert |multiset(s[i..])| == |multiset(Matching(rows, g))|;
    assert |multiset(s)| == |multiset(Matching(rows, f))|;
  }

  /** Some walk exists, so what holds of all walks is not empty talk. */
  lemma {:induction false} WalkExists(rows: seq<Row>, f: Filter, limit: nat) returns (orders: seq<seq<Row>>)
    requires limit > 0
    ensures IsWalk(rows, f, limit, orders)
    decreases |Matching(rows, f)|
  {
    var s := Sorted(Matching(rows, f));
    SortedIsAscending(Matching(rows, f));
    if |s| < limit {
      orders := [s];
    } else {
      NextIsShorter(rows, f, limit, s);
      var rest := WalkExists(rows, f.(after := Some(s[limit - 1].key)), limit);
      WalkExtends(rows, f, limit, s, rest);
      orders := [s] + rest;
    }
  }

  /** No two rows on either side of a page end share a creation time. */
  ghost predicate PageEndsClean(s: seq<Row>, limit: nat)
    requires limit > 0
  {
    forall i :: limit <= i < |s| && i % limit == 0 ==> s[i - 1].key < s[i].key
  }

  lemma CleanEndsTail(s: seq<Row>, limit: nat)
    requires limit > 0 && |s| > limit
    ensures PageEndsClean(s, limit) <==> s[limit - 1].key < s[limit].key && PageEndsClean(s[limit..], limit)
  {
    var t := s[limit..];
    if PageEndsClean(s, limit) {
      assert limit % limit == 0;
      forall i | limit <= i < |t| && i % limit == 0 ensures t[i - 1].key < t[i].key {
        ShiftedMultiple(i, limit);
        assert s[i + limit - 1] == t[i - 1] && s[i + limit] == t[i];
      }
    }
    if s[limit - 1].key < s[limit].key && PageEndsClean(t, limit) {
      forall i | limit <= i < |s| && i % limit == 0 ensures s[i - 1].key < s[i].key {
        if i > limit {
          ShiftedMultiple(i - limit, limit);
          SmallMultiple(i - limit, limit);
          assert s[i - 1] == t[i - limit - 1] && s[i] == t[i - limit];
        }
      }
    }
  }

  lemma ShiftedMultiple(i: nat, m: nat)
    requires m > 0
    ensures (i + m) % m == i % m
    ensures (i + m) / m == i / m + 1
  {
    var q := i / m;
    assert i == q * m + i % m;
    assert i + m == (q + 1) * m + i % m;
    DivModUnique(i + m, m, q + 1, i % m);
  }

  lemma SmallMultiple(i: nat, m: nat)
    requires m > 0 && i > 0 && i % m == 0
    ensures i >= m
  {
  }

  /** The first request of a walk that goes on. */
  lemma FirstRequest(orders: seq<seq<Row>>, limit: nat) returns (i: nat)
    requires limit > 0 && IsChain(orders, limit) && |orders[0]| >= limit
    ensures |orders| > 1 && IsChain(orders[1..], limit) && orders[1..][0] == orders[1]
    ensures IsRest(orders[0], orders[1], limit, i) && |orders[1]| == |orders[0]| - i
    ensures Collected(orders, limit) == orders[0][..limit] + Collected(orders[1..], limit)
  {
    i :| IsRest(orders[0], orders[1], limit, i);
    assert Take(orders[0], limit) == orders[0][..limit];
    assert |multiset(orders[1])| == |multiset(orders[0][i..])|;
  }

  lemma LastRequest(orders: seq<seq<Row>>, limit: nat)
    requires limit > 0 && IsChain(orders, limit) && |orders[0]| < limit
    ensures |orders| == 1 && Collected(orders, limit) == orders[0]
  {
    assert orders[1..] == [];
    assert orders[0] + [] == orders[0];
  }

  lemma RestIsLater(s: seq<Row>, t: seq<Row>, limit: nat, i: nat, x: Row)
    requires 0 < limit <= |s| && IsRest(s, t, limit, i) && x in t
    ensures x in s && x.key > s[limit - 1].key
  {
    assert x in multiset(t);
    assert x in s[i..];
    var j :| 0 <= j < |s[i..]| && s[i..][j] == x;
    assert s[i + j] == x;
  }

  lemma {:induction false} CollectedIsPart(orders: seq<seq<Row>>, limit: nat)
    requires limit > 0 && IsChain(orders, limit)
    ensures |Collected(orders, limit)| <= |orders[0]|
    ensures forall x :: x in Collected(orders, limit) ==> x in orders[0]
    decreases |orders|
  {
    var s := orders[0];
    if |s| >= limit {
      var i := FirstRequest(orders, limit);
      var t := orders[1];
      CollectedIsPart(orders[1..], limit);
      forall x | x in t ensures x in s {
        RestIsLater(s, t, limit, i, x);
      }
    } else {
      LastRequest(orders, limit);
    }
  }

  lemma AppendAscends(a: seq<Row>, b: seq<Row>, k: int)
    requires Ascending(a) && Ascending(b)
    requires (forall i :: 0 <= i < |a| ==> a[i].key <= k) && (forall i :: 0 <= i < |b| ==> b[i].key > k)
    ensures Ascending(a + b)
  {
  }

  /** The rows come in chronological order whatever the database chooses. */
  lemma {:induction false} CollectedAscends(orders: seq<seq<Row>>, limit: nat)
    requires limit > 0 && IsChain(orders, limit)
    ensures Ascending(Collected(orders, limit))
    decreases |orders|
  {
    var s := orders[0];
    if |s| >= limit {
      var i := FirstRequest(orders, limit);
      var t, rest := orders[1], Collected(orders[1..], limit);
      CollectedAscends(orders[1..], limit);
      CollectedIsPart(orders[1..], limit);
      forall j | 0 <= j < |rest| ensures rest[j].key > s[limit - 1].key {
        assert rest[j] in t;
        RestIsLater(s, t, limit, i, rest[j]);
      }
      AppendAscends(s[..limit], rest, s[limit - 1].key);
    } else {
      LastRequest(orders, limit);
    }
  }

  lemma SameEnds(a: seq<Row>, b: seq<Row>, limit: nat)
    requires limit > 0 && Keys(a) == Keys(b)
    ensures PageEndsClean(a, limit) <==> PageEndsClean(b, limit)
  {
    assert forall i :: 0 <= i < |a| ==> a[i].key == Keys(a)[i] && b[i].key == Keys(b)[i];
  }

  lemma SplitComplete(s: seq<Row>, n: nat, rest: seq<Row>)
    requires n <= |s|
    ensures multiset(s[..n] + rest) == multiset(s) <==> multiset(rest) == multiset(s[n..])
  {
    assert s == s[..n] + s[n..];
    assert multiset(s) == multiset(s[..n]) + multiset(s[n..]);
    if multiset(s[..n] + rest) == multiset(s) {
      assert multiset(rest) == multiset(s) - multiset(s[..n]);
    }
  }

  /** What the first page end decides. */
  lemma FirstEnd(s: seq<Row>, t: seq<Row>, limit: nat, i: nat)
    requires 0 < limit <= |s| && Ascending(s) && Ascending(t) && IsRest(s, t, limit, i)
    ensures PageEndsClean(s, limit) <==> i == limit && PageEndsClean(t, limit)
    ensures |t| == |s| - i
  {
    KeysAreDetermined(t, s[i..]);
    assert |t| == |Keys(t)| == |Keys(s[i..])|;
    SameEnds(t, s[i..], limit);
    if |s| > limit {
      CleanEndsTail(s, limit);
      assert s[limit].key >= s[limit - 1].key;
    }
  }

  /** Given what the later requests collect, all rows arrive exactly when the first page end is
      clean and the later ones are. */
  lemma PageAndRest(s: seq<Row>, t: seq<Row>, rest: seq<Row>, limit: nat, i: nat)
    requires 0 < limit <= |s| && IsRest(s, t, limit, i) && |rest| <= |t|
    ensures multiset(s[..limit] + rest) == multiset(s) <==> i == limit && multiset(rest) == multiset(t)
  {
    SplitComplete(s, limit, rest);
    assert |multiset(t)| == |multiset(s[i..])|;
    assert |multiset(rest)| == |rest|;
    assert |multiset(s[limit..])| == |s| - limit;
  }

  lemma ChainStep(s: seq<Row>, t: seq<Row>, rest: seq<Row>, limit: nat, i: nat, n: nat)
    requires 0 < limit <= |s| && Ascending(s) && Ascending(t) && IsRest(s, t, limit, i) && |rest| <= |t|
    requires multiset(rest) == multiset(t) <==> PageEndsClean(t, limit)
    requires PageEndsClean(t, limit) ==> n == |t| / limit + 1
    ensures multiset(s[..limit] + rest) == multiset(s) <==> PageEndsClean(s, limit)
    ensures PageEndsClean(s, limit) ==> n + 1 == |s| / limit + 1
  {
    FirstEnd(s, t, limit, i);
    PageAndRest(s, t, rest, limit, i);
    ShiftedMultiple(|s| - limit, limit);
  }

  /** All rows arrive exactly when no page end falls between rows of equal time. */
  lemma {:induction false} ChainCompleteIffEndsClean(orders: seq<seq<Row>>, limit: nat)
    requires limit > 0 && IsChain(orders, limit)
    ensures multiset(Collected(orders, limit)) == multiset(orders[0]) <==> PageEndsClean(orders[0], limit)
    ensures PageEndsClean(orders[0], limit) ==> |orders| == |orders[0]| / limit + 1
    decreases |orders|
  {
    if |orders[0]| >= limit {
      var i := FirstRequest(orders, limit);
      var tail := orders[1..];
      ChainCompleteIffEndsClean(tail, limit);
      CollectedIsPart(tail, limit);
      ChainStep(orders[0], orders[1], Collected(tail, limit), limit, i, |tail|);
    } else {
      LastRequest(orders, limit);
      DivModUnique(|orders[0]|, limit, 0, |orders[0]|);
    }
  }

  /** Following the cursor, whatever order the database gives rows of equal time in each request:
      the rows arrive in chronological order, and every matching row arrives, once, exactly when
      no page end falls between rows of equal time; then it takes floor(n / limit) + 1 requests. */
  lemma WalkCompleteIffEndsClean(rows: seq<Row>, f: Filter, limit: nat, orders: seq<seq<Row>>)
    requires limit > 0 && IsWalk(rows, f, limit, orders)
    ensures var all := Collected(orders, limit);
      && Ascending(all)
      && (multiset(all) == multiset(Matching(rows, f)) <==> PageEndsClean(orders[0], limit))
      && (PageEndsClean(orders[0], limit) ==> |orders| == |Matching(rows, f)| / limit + 1)
  {
    WalkIsChain(rows, f, limit, orders);
    CollectedAscends(orders, limit);
    ChainCompleteIffEndsClean(orders, limit);
    assert |multiset(orders[0])| == |multiset(Matching(rows, f))|;
  }

  /** With distinct creation times nothing is ever skipped. */
  lemma DistinctTimesAreComplete(rows: seq<Row>, f: Filter, limit: nat, orders: seq<seq<Row>>)
    requires limit > 0 && IsWalk(rows, f, limit, orders)
    requires forall i, j :: 0 <= i < j < |rows| ==> rows[i].key != rows[j].key
    ensures Collected(orders, limit) == Sorted(Matching(rows, f))
    ensures |orders| == |Matching(rows, f)| / limit + 1
  {
    var s := Sorted(Matching(rows, f));
    SortedIsAscending(Matching(rows, f));
    DistinctKeys(rows, f);
    KeysAreDetermined(s, orders[0]);
    SameEnds(s, orders[0], limit);
    WalkCompleteIffEndsClean(rows, f, limit, orders);
    DistinctIsUnique(s, Collected(orders, limit));
  }

  /** A strictly ascending list is the only ordering of its rows. */
  lemma DistinctIsUnique(s: seq<Row>, t: seq<Row>)
    requires StrictlyAscending(s) && Ascending(t) && multiset(s) == multiset(t)
    ensures s == t
  {
    KeysAreDetermined(s, t);
    assert |s| == |Keys(s)| == |Keys(t)| == |t|;
    forall i | 0 <= i < |t| ensures s[i] == t[i] {
      assert t[i] in multiset(s);
      var j :| 0 <= j < |s| && s[j] == t[i];
      assert s[j].key == Keys(t)[i] == Keys(s)[i] == s[i].key;
    }
  }

  ghost predicate StrictlyAscending(s: seq<Row>) {
    forall i, j :: 0 <= i < j < |s| ==> s[i].key < s[j].key
  }

  lemma {:induction false} InsertDistinct(s: seq<Row>, r: Row)
    requires StrictlyAscending(s) && forall i :: 0 <= i < |s| ==> s[i].key != r.key
    ensures StrictlyAscending(Insert(s, r)) && Insert(s, r) != []
    ensures Insert(s, r)[0] == r || (s != [] && Insert(s, r)[0] == s[0])
  {
    if s != [] && s[0].key <= r.key {
      InsertDistinct(s[1..], r);
    }
  }

  lemma {:induction false} DistinctKeys(rows: seq<Row>, f: Filter)
    requires forall i, j :: 0 <= i < j < |rows| ==> rows[i].key != rows[j].key
    ensures StrictlyAscending(Sorted(Matching(rows, f)))
    decreases |rows|
  {
    if rows != [] {
      var init, r := rows[..|rows| - 1], rows[|rows| - 1];
      DistinctKeys(init, f);
      assert rows == init + [r];
      MatchingStep(init, r, f);
      var s := Sorted(Matching(init, f));
      SortedIsAscending(Matching(init, f));
      forall i | 0 <= i < |s| ensures s[i].key != r.key {
        assert s[i] in multiset(s);
        MatchingMatches(init, f, s[i]);
      }
      InsertDistinct(s, r);
    }
  }

  // ---------------------------------------------------------------------------
  // What a list holds
  // ---------------------------------------------------------------------------

  lemma {:induction false} MatchingCounts(rows: seq<Row>, f: Filter, r: Row)
    ensures multiset(Matching(rows, f))[r] == if Matches(f, r) then multiset(rows)[r] else 0
    decreases |rows|
  {
    if rows != [] {
      var init, last := rows[..|rows| - 1], rows[|rows| - 1];
      MatchingCounts(init, f, r);
      assert rows == init + [last];
      assert multiset(rows)[r] == multiset(init)[r] + if last == r then 1 else 0;
      assert multiset(Matching(init, f) + [last])[r] == multiset(Matching(init, f))[r] + if last == r then 1 else 0;
      assert Matching(init, f) + [] == Matching(init, f);
    }
  }

  /** Every row of the table is listed as often as it is stored, if it is of the project, session and
      hook type asked for, touches the file and was created strictly between the two times; a filter
      that is empty or absent does not filter. */
  lemma ListedIffAllFiltersMatch(rows: seq<Row>, f: Filter, s: seq<Row>, r: Row)
    requires IsOrdering(rows, f, s)
    ensures multiset(s)[r] ==
      if && (f.project == "" || r.project == f.project) && (f.session == "" || r.session == f.session)
         && (f.hookType == "" || r.hookType == f.hookType) && (f.filePath == "" || f.filePath in r.files)
         && (f.after == None || r.key > f.after.value) && (f.before == None || r.key < f.before.value)
      then multiset(rows)[r] else 0
  {
    MatchingCounts(rows, f, r);
  }
}
