/**
 Downloading a table page by page while it changes: each page continues behind the last
 element of the page before.  The table is given at each page by the ascending list of
 its elements at that moment, in the order of the storage that it is read from.
 */
module TableDownload {
  import opened PoolHandleOrder

  const MAX_PAGE := 1024

  predicate Ascending(table: seq<Key>) {
    table == [] || ((forall k :: k in table[1..] ==> Less(table[0], k)) && Ascending(table[1..]))
  }

  /** The elements behind the cursor, which need not itself be in the table. */
  function After(table: seq<Key>, cursor: Key): seq<Key> {
    if table == [] then []
    else if Less(cursor, table[0]) then table
    else After(table[1..], cursor)
  }

  function Clamp(max: nat): nat { if max > MAX_PAGE then MAX_PAGE else max }

  function Take<T>(s: seq<T>, n: nat): seq<T> { if n < |s| then s[..n] else s }

  lemma TakePrefix<T>(page: seq<T>, rest: seq<T>, max: nat)
    requires |page| == max || (|page| <= max && rest == [])
    ensures Take(page + rest, max) == page
  {
  }

  /** One request: at most `max` elements behind the cursor. */
  function Page(table: seq<Key>, cursor: Key, max: nat): seq<Key> {
    Take(After(table, cursor), Clamp(max))
  }

  /** A request, the table at that moment, and how many elements fit into the response. */
  datatype Request = Request(table: seq<Key>, max: nat, fit: nat)

  /** The elements that the response carries: at least one if there are any. */
  function Delivered(r: Request, cursor: Key): seq<Key> {
    Take(Page(r.table, cursor, r.max), if r.fit == 0 then 1 else r.fit)
  }

  /** The response asks for another request: the page was full, or did not fit. */
  predicate More(r: Request, cursor: Key) {
    var page := Page(r.table, cursor, r.max);
    page != [] && (|page| == Clamp(r.max) || |Delivered(r, cursor)| != |page|)
  }

  function Advance(r: Request, cursor: Key): Key {
    var d := Delivered(r, cursor);
    if d == [] then cursor else d[|d| - 1]
  }

  /** What all requests together deliver, up to the response that asks for no more. */
  function Download(rs: seq<Request>, cursor: Key): seq<Key>
    decreases |rs|
  {
    if rs == [] then []
    else Delivered(rs[0], cursor) +
         if More(rs[0], cursor) then Download(rs[1..], Advance(rs[0], cursor)) else []
  }

  predicate Finished(rs: seq<Request>, cursor: Key)
    decreases |rs|
  {
    rs != [] && (!More(rs[0], cursor) || Finished(rs[1..], Advance(rs[0], cursor)))
  }

  // ---- Ascending lists --------------------------------------------------------------------

  lemma {:induction false} AfterEffect(table: seq<Key>, cursor: Key, k: Key)
    requires Ascending(table)
    ensures Ascending(After(table, cursor))
    ensures k in After(table, cursor) <==> k in table && Less(cursor, k)
  {
    if table != [] {
      var head := table[0];
      assert k in table <==> k == head || k in table[1..];
      if Less(cursor, head) {
        KeyOrder(cursor, head, k);
      } else {
        AfterEffect(table[1..], cursor, k);
      }
    }
  }

  lemma {:induction false} AscendingTake(s: seq<Key>, n: nat, k: Key)
    requires Ascending(s)
    ensures Ascending(Take(s, n))
    ensures k in s && k !in Take(s, n) && Take(s, n) != [] ==> Less(Take(s, n)[|Take(s, n)| - 1], k)
    decreases |s|
  {
    if s != [] && 0 < n < |s| {
      var t := Take(s, n);
      AscendingTake(s[1..], n - 1, k);
      assert Take(s[1..], n - 1) == t[1..];
      assert k in s <==> k == s[0] || k in s[1..];
      forall x | x in t[1..] ensures Less(t[0], x) { assert x in s[1..]; }
      if n == 1 && k in s[1..] { assert t == [s[0]]; }
    }
  }

  lemma {:induction false} LastIsGreatest(s: seq<Key>, k: Key)
    requires Ascending(s) && k in s
    ensures k == s[|s| - 1] || Less(k, s[|s| - 1])
    decreases |s|
  {
    if |s| > 1 {
      assert k == s[0] || k in s[1..];
      if k in s[1..] { LastIsGreatest(s[1..], k); } else { assert s[|s| - 1] in s[1..]; }
    }
  }

  lemma {:induction false} AscendingConcat(a: seq<Key>, b: seq<Key>)
    requires Ascending(a) && Ascending(b) && (a != [] ==> forall k :: k in b ==> Less(a[|a| - 1], k))
    ensures Ascending(a + b)
    decreases |a|
  {
    if a == [] {
      assert a + b == b;
    } else {
      assert (a + b)[1..] == a[1..] + b;
      AscendingConcat(a[1..], b);
      forall k | k in a[1..] + b ensures Less(a[0], k) {
        if k in b { LastIsGreatest(a, a[0]); KeyOrder(a[0], a[|a| - 1], k); }
      }
    }
  }

  // ---- One response --------------------------------------------------------------------------

  lemma DeliveredEffect(r: Request, cursor: Key, k: Key)
    requires Ascending(r.table)
    ensures var d := Delivered(r, cursor);
      && Ascending(d)
      && (k in d ==> k in r.table && Less(cursor, k))
      && (k in r.table && Less(cursor, k) && k !in d && d != [] ==> Less(d[|d| - 1], k))
  {
    var after := After(r.table, cursor);
    var page := Page(r.table, cursor, r.max);
    AfterEffect(r.table, cursor, k);
    AscendingTake(after, Clamp(r.max), k);
    AscendingTake(page, if r.fit == 0 then 1 else r.fit, k);
    var d := Delivered(r, cursor);
    if page != [] && d != [] && k !in page {
      LastIsGreatest(page, d[|d| - 1]);
      if k in after { KeyOrder(d[|d| - 1], page[|page| - 1], k); }
    }
  }

  /** A response that asks for no more carries everything behind the cursor. */
  lemma LastResponse(r: Request, cursor: Key)
    requires r.max >= 1 && !More(r, cursor)
    ensures Delivered(r, cursor) == After(r.table, cursor)
  {
  }

  // ---- Whole downloads -------------------------------------------------------------------------

  predicate AllAscending(rs: seq<Request>) {
    forall r :: r in rs ==> Ascending(r.table)
  }

  lemma {:induction false} DownloadBehind(rs: seq<Request>, cursor: Key, k: Key)
    requires AllAscending(rs) && k in Download(rs, cursor)
    ensures Less(cursor, k)
    decreases |rs|
  {
    var d := Delivered(rs[0], cursor);
    assert rs[0] in rs;
    DeliveredEffect(rs[0], cursor, k);
    if k !in d {
      DownloadBehind(rs[1..], Advance(rs[0], cursor), k);
      if d != [] {
        DeliveredEffect(rs[0], cursor, d[|d| - 1]);
        KeyOrder(cursor, d[|d| - 1], k);
      }
    }
  }

  /** No element is delivered twice, whatever happens to the table between the requests:
      the download is strictly ascending. */
  lemma {:induction false} NothingTwice(rs: seq<Request>, cursor: Key)
    requires AllAscending(rs)
    ensures Ascending(Download(rs, cursor))
    decreases |rs|
  {
    if rs != [] {
      var d, next := Delivered(rs[0], cursor), Advance(rs[0], cursor);
      assert rs[0] in rs;
      DeliveredEffect(rs[0], cursor, cursor);
      if More(rs[0], cursor) {
        NothingTwice(rs[1..], next);
        forall k | k in Download(rs[1..], next) ensures Less(next, k) { DownloadBehind(rs[1..], next, k); }
        AscendingConcat(d, Download(rs[1..], next));
      } else {
        assert d + [] == d;
      }
    }
  }

  lemma {:induction false} OnlyOnce(s: seq<Key>, i: nat, j: nat)
    requires Ascending(s) && i < j < |s|
    ensures s[i] != s[j]
    decreases i
  {
    if i == 0 {
      assert s[j] in s[1..];
      KeyOrder(s[0], s[0], s[0]);
    } else {
      OnlyOnce(s[1..], i - 1, j - 1);
    }
  }

  /** Every element that is in the table at every request is delivered by the time the
      download ends, and only elements that were in the table are delivered. */
  lemma {:induction false} NothingMissed(rs: seq<Request>, cursor: Key, k: Key)
    requires AllAscending(rs) && (forall r :: r in rs ==> r.max >= 1) && Finished(rs, cursor)
    requires Less(cursor, k)
    ensures (forall r :: r in rs ==> k in r.table) ==> k in Download(rs, cursor)
    ensures k in Download(rs, cursor) ==> exists r :: r in rs && k in r.table
    decreases |rs|
  {
    var r := rs[0];
    assert r in rs;
    DeliveredEffect(r, cursor, k);
    if !More(r, cursor) {
      LastResponse(r, cursor);
      AfterEffect(r.table, cursor, k);
    } else if k !in Delivered(r, cursor) {
      var next := Advance(r, cursor);
      if Less(next, k) {
        NothingMissed(rs[1..], next, k);
        if k in Download(rs[1..], next) {
          var r' :| r' in rs[1..] && k in r'.table;
          assert r' in rs;
        }
      } else {
        if k in Download(rs[1..], next) { DownloadBehind(rs[1..], next, k); }
      }
    }
  }

  /** Handle-table download: an element that is in the table throughout is delivered
      exactly once. */
  lemma ExactlyOnce(rs: seq<Request>, cursor: Key, k: Key)
    requires AllAscending(rs) && (forall r :: r in rs ==> r.max >= 1) && Finished(rs, cursor)
    requires Less(cursor, k) && forall r :: r in rs ==> k in r.table
    ensures exists i :: 0 <= i < |Download(rs, cursor)| && Download(rs, cursor)[i] == k &&
              forall j :: 0 <= j < |Download(rs, cursor)| && Download(rs, cursor)[j] == k ==> j == i
  {
    var d := Download(rs, cursor);
    NothingMissed(rs, cursor, k);
    NothingTwice(rs, cursor);
    var i :| 0 <= i < |d| && d[i] == k;
    forall j | 0 <= j < |d| && d[j] == k ensures j == i {
      if j < i { OnlyOnce(d, j, i); } else if i < j { OnlyOnce(d, i, j); }
    }
  }

  // ---- A table that does not change --------------------------------------------------------------

  lemma {:induction false} AfterTwice(table: seq<Key>, cursor: Key, x: Key)
    requires Ascending(table) && Less(cursor, x)
    ensures After(After(table, cursor), x) == After(table, x)
  {
    if table != [] && !Less(cursor, table[0]) {
      KeyOrder(x, table[0], cursor);
      KeyOrder(cursor, x, table[0]);
      AfterTwice(table[1..], cursor, x);
    }
  }

  lemma {:induction false} AfterPrefix(s: seq<Key>, n: nat)
    requires Ascending(s) && 0 < n <= |s|
    ensures After(s, s[n - 1]) == s[n..]
    decreases |s|
  {
    KeyOrder(s[0], s[0], s[0]);
    if n == 1 {
      AfterAll(s[1..], s[0]);
    } else {
      assert s[n - 1] in s[1..];
      KeyOrder(s[0], s[n - 1], s[0]);
      AfterPrefix(s[1..], n - 1);
    }
  }

  lemma AfterAll(s: seq<Key>, cursor: Key)
    requires forall k :: k in s ==> Less(cursor, k)
    ensures After(s, cursor) == s
  {
    if s != [] { assert s[0] in s; }
  }

  /** What is left after a response. */
  lemma AfterResponse(r: Request, cursor: Key)
    requires Ascending(r.table) && Delivered(r, cursor) != []
    ensures var d, after := Delivered(r, cursor), After(r.table, cursor);
      |d| <= |after| && d == after[..|d|] && After(r.table, Advance(r, cursor)) == after[|d|..]
  {
    var d, after := Delivered(r, cursor), After(r.table, cursor);
    AfterEffect(r.table, cursor, d[|d| - 1]);
    assert d == after[..|d|];
    assert after[|d| - 1] in after;
    AfterTwice(r.table, cursor, d[|d| - 1]);
    AfterPrefix(after, |d|);
  }

  /** With a fixed table the pages concatenate to the sorted table. */
  lemma {:induction false} FixedTableComplete(rs: seq<Request>, table: seq<Key>, cursor: Key)
    requires Ascending(table) && Finished(rs, cursor)
    requires forall r :: r in rs ==> r.table == table && r.max >= 1
    ensures Download(rs, cursor) == After(table, cursor)
    decreases |rs|
  {
    var r := rs[0];
    assert r in rs;
    if More(r, cursor) {
      AfterResponse(r, cursor);
      FixedTableComplete(rs[1..], table, Advance(r, cursor));
    } else {
      LastResponse(r, cursor);
      assert Delivered(r, cursor) + [] == Delivered(r, cursor);
    }
  }

  /** And the download ends: one request per remaining element and one more suffice. */
  lemma {:induction false} FixedTableEnds(rs: seq<Request>, table: seq<Key>, cursor: Key)
    requires Ascending(table) && |rs| > |After(table, cursor)|
    requires forall r :: r in rs ==> r.table == table && r.max >= 1
    ensures Finished(rs, cursor)
    decreases |rs|
  {
    var r := rs[0];
    assert r in rs;
    if More(r, cursor) {
      AfterResponse(r, cursor);
      FixedTableEnds(rs[1..], table, Advance(r, cursor));
    }
  }

  /** No response carries more than was asked for, nor more than the limit of the code; and
      it carries something if there is anything. */
  lemma ResponseSize(r: Request, cursor: Key)
    requires r.max >= 1
    ensures |Delivered(r, cursor)| <= r.max && |Delivered(r, cursor)| <= MAX_PAGE
    ensures Delivered(r, cursor) == [] <==> After(r.table, cursor) == []
  {
  }

  predicate WholePages(rs: seq<Request>, table: seq<Key>, max: nat) {
    forall r :: r in rs ==> r.table == table && r.max == max && r.fit >= Clamp(max)
  }

  /** The number of requests: with a fixed table and whole pages, the download ends with the
      request that follows the full pages, and no sooner. */
  lemma {:induction false} RequestsNeeded(rs: seq<Request>, table: seq<Key>, cursor: Key, max: nat)
    requires Ascending(table) && max >= 1 && WholePages(rs, table, max)
    ensures Finished(rs, cursor) <==> |rs| > FullPages(|After(table, cursor)|, Clamp(max))
    decreases |rs|
  {
    if rs != [] {
      var r, n, m := rs[0], |After(table, cursor)|, Clamp(max);
      assert r in rs;
      if n >= m {
        assert |Delivered(r, cursor)| == m && More(r, cursor);
        AfterResponse(r, cursor);
        RequestsNeeded(rs[1..], table, Advance(r, cursor), max);
      } else {
        assert !More(r, cursor);
      }
    }
  }

  /** How many pages of `m` elements are full. */
  function FullPages(n: nat, m: nat): nat
    requires m >= 1
  {
    if n < m then 0 else 1 + FullPages(n - m, m)
  }
}
